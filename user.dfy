/** A registered account: four plain text fields, the name acting as the key. */
module Users {

  datatype User = User(name: string, password: string, email: string, phone: string)
}
