/** The string helpers of the console: splitting an input line into
    space-separated arguments, joining a participant list with '&', and the
    login-state check that guards every command. */
module Console {
  import opened Seqs
  import opened Errors
  import Store

  // -----------------------------------------------------------------------
  // Tokenising an input line

  predicate IsSpace(c: char)
  {
    c == ' '
  }

  /** The first position at or after i that is not a space, or |s|. */
  function SkipSpaces(s: string, i: nat): (j: nat)
    requires i <= |s|
    ensures i <= j <= |s|
    ensures j < |s| ==> s[j] != ' '
    ensures forall k :: i <= k < j ==> s[k] == ' '
    decreases |s| - i
  {
    if i < |s| && s[i] == ' ' then SkipSpaces(s, i + 1) else i
  }

  /** The tokens the splitting loop appends when it starts at position start:
      the text up to the next space, then (after the run of spaces) the
      tokens of the rest, stopping when the spaces run to the end. */
  function TokensFrom(line: string, start: nat): seq<string>
    requires start < |line|
    decreases |line| - start
  {
    var bound := FindFrom(line, ' ', start);
    if bound == |line| then [line[start..]]
    else
      var next := SkipSpaces(line, bound);
      if next == |line| then [line[start..bound]]
      else [line[start..bound]] + TokensFrom(line, next)
  }

  /** The tokens of a line; an empty line has none. */
  function Tokens(line: string): seq<string>
  {
    if line == "" then [] else TokensFrom(line, 0)
  }

  /** One step of the tokens: the text up to the next space, then the tokens
      after the run of spaces that follows it. */
  lemma TokensStep(line: string, start: nat)
    requires start < |line|
    ensures var bound := FindFrom(line, ' ', start);
      && (bound == |line| ==> TokensFrom(line, start) == [line[start..]])
      && (bound < |line| && SkipSpaces(line, bound) == |line| ==>
            TokensFrom(line, start) == [line[start..bound]])
      && (bound < |line| && SkipSpaces(line, bound) < |line| ==>
            TokensFrom(line, start) == [line[start..bound]] + TokensFrom(line, SkipSpaces(line, bound)))
  {
  }

  /** tokenize: appends the tokens of line to dest (passed by reference in
      the source, returned here) and returns how many it appended. */
  method Tokenize(line: string, dest: seq<string>) returns (count: int, result: seq<string>)
    ensures result == dest + Tokens(line)
    ensures count == |Tokens(line)|
    ensures line == "" ==> count == 0 && result == dest
  {
    if line == "" {
      return 0, dest;
    }
    result := dest;
    var originSize := |result|;
    var start := 0;
    while true
      invariant 0 <= start < |line|
      invariant result + TokensFrom(line, start) == dest + Tokens(line)
      decreases |line| - start
    {
      var bound := FindFrom(line, ' ', start);
      if bound == |line| {
        TokensStep(line, start);
        result := result + [line[start..]];
        break;
      }
      var token := line[start..bound];
      var next := SkipSpaceRun(line, bound);
      TokensAfterWord(line, start, bound, next);
      PushToken(result, token, if next == |line| then [] else TokensFrom(line, next));
      result := result + [token];
      if next == |line| {
        break;
      }
      start := next;
    }
    count := |result| - originSize;
  }

  /** Moving a token from the pending tokens to the result keeps the whole. */
  lemma PushToken(result: seq<string>, token: string, rest: seq<string>)
    ensures result + ([token] + rest) == (result + [token]) + rest
    ensures rest == [] ==> result + ([token] + rest) == result + [token]
  {
  }

  /** The inner loop of tokenize: moves past a run of spaces. */
  method SkipSpaceRun(line: string, bound: nat) returns (start: nat)
    requires bound <= |line|
    ensures start == SkipSpaces(line, bound)
  {
    start := bound;
    while start < |line| && line[start] == ' '
      invariant bound <= start <= |line|
      invariant SkipSpaces(line, start) == SkipSpaces(line, bound)
      decreases |line| - start
    {
      start := start + 1;
    }
  }

  /** The tokens joined back together. */
  function Concat(ts: seq<string>): string
  {
    if ts == [] then "" else ts[0] + Concat(ts[1..])
  }

  /** No token contains a space. */
  lemma {:induction false} TokensHaveNoSpace(line: string, start: nat)
    requires start < |line|
    ensures forall t :: t in TokensFrom(line, start) ==> ' ' !in t
    decreases |line| - start
  {
    var bound := FindFrom(line, ' ', start);
    assert ' ' !in line[start..bound] by {
      forall k | 0 <= k < bound - start ensures line[start..bound][k] != ' ' {
        assert line[start..bound][k] == line[start + k];
      }
    }
    if bound != |line| {
      var next := SkipSpaces(line, bound);
      if next != |line| {
        TokensHaveNoSpace(line, next);
      }
    }
  }

  /** A non-empty line without spaces is a single token, the line itself. */
  lemma SpacelessLineIsOneToken(line: string)
    requires line != "" && ' ' !in line
    ensures Tokens(line) == [line]
  {
    assert FindFrom(line, ' ', 0) == |line|;
    assert line[0..] == line;
  }

  /** Every token after the first is non-empty, and the first is non-empty
      when the tokens start at a non-space. */
  lemma {:induction false} LaterTokensNonEmpty(line: string, start: nat)
    requires start < |line|
    ensures |TokensFrom(line, start)| >= 1
    ensures forall i :: 1 <= i < |TokensFrom(line, start)| ==> TokensFrom(line, start)[i] != ""
    ensures TokensFrom(line, start)[0] == "" <==> line[start] == ' '
    decreases |line| - start
  {
    var bound := FindFrom(line, ' ', start);
    if bound != |line| {
      var next := SkipSpaces(line, bound);
      if next != |line| {
        LaterTokensNonEmpty(line, next);
      }
    }
  }

  /** Space runs and trailing spaces make no empty tokens; only a leading
      space makes the first token empty. */
  lemma TokenShapes(line: string)
    requires line != ""
    ensures |Tokens(line)| >= 1
    ensures forall t :: t in Tokens(line) ==> ' ' !in t
    ensures forall i :: 1 <= i < |Tokens(line)| ==> Tokens(line)[i] != ""
    ensures Tokens(line)[0] == "" <==> line[0] == ' '
  {
    TokensHaveNoSpace(line, 0);
    LaterTokensNonEmpty(line, 0);
  }

  /** The tokens, joined back together, are the line with its spaces removed. */
  lemma {:induction false} ConcatTokensFrom(line: string, start: nat)
    requires start < |line|
    ensures Concat(TokensFrom(line, start)) == Reject(line[start..], IsSpace)
    decreases |line| - start
  {
    var bound := FindFrom(line, ' ', start);
    if bound == |line| {
      LastWord(line, start);
    } else {
      var next := SkipSpaces(line, bound);
      if next < |line| {
        ConcatTokensFrom(line, next);
      }
      WordThenRest(line, start, bound, next);
    }
  }

  /** The last token is the rest of the line, which has no spaces. */
  lemma LastWord(line: string, start: nat)
    requires start < |line| && FindFrom(line, ' ', start) == |line|
    ensures Concat(TokensFrom(line, start)) == Reject(line[start..], IsSpace)
  {
    TokensStep(line, start);
    var word := line[start..];
    WordKept(line, start, |line|);
    assert line[start..|line|] == word;
    assert Concat([word]) == word + Concat([]);
  }

  /** A token followed by a run of spaces: the token is kept whole, the run is
      dropped, and the rest is handled by the tokens after the run. */
  lemma WordThenRest(line: string, start: nat, bound: nat, next: nat)
    requires start < |line| && bound == FindFrom(line, ' ', start) && bound < |line|
    requires next == SkipSpaces(line, bound)
    requires next < |line| ==> Concat(TokensFrom(line, next)) == Reject(line[next..], IsSpace)
    ensures Concat(TokensFrom(line, start)) == Reject(line[start..], IsSpace)
  {
    var word := line[start..bound];
    var rest := if next == |line| then [] else TokensFrom(line, next);
    TokensAfterWord(line, start, bound, next);
    ConcatCons(word, rest);
    assert Concat(rest) == Reject(line[next..], IsSpace) by {
      if next == |line| {
        assert line[next..] == [];
      }
    }
    WordThenGap(line, start, bound, next);
  }

  /** The tokens from a word followed by spaces: the word, then the tokens
      after the spaces, if any. */
  lemma TokensAfterWord(line: string, start: nat, bound: nat, next: nat)
    requires start < |line| && bound == FindFrom(line, ' ', start) && bound < |line|
    requires next == SkipSpaces(line, bound)
    ensures TokensFrom(line, start)
      == [line[start..bound]] + (if next == |line| then [] else TokensFrom(line, next))
  {
    TokensStep(line, start);
  }

  lemma ConcatCons(w: string, rest: seq<string>)
    ensures Concat([w] + rest) == w + Concat(rest)
  {
    assert ([w] + rest)[1..] == rest;
  }

  /** Removing the spaces from a word, a run of spaces and the rest of the
      line keeps the word and the rest without its spaces. */
  lemma WordThenGap(line: string, start: nat, bound: nat, next: nat)
    requires start < |line| && bound == FindFrom(line, ' ', start) && bound < |line|
    requires next == SkipSpaces(line, bound)
    ensures Reject(line[start..], IsSpace) == line[start..bound] + Reject(line[next..], IsSpace)
  {
    var word := line[start..bound];
    WordKept(line, start, bound);
    GapDropped(line, bound, next);
    assert line[start..] == word + line[bound..];
    RejectAppend(word, line[bound..], IsSpace);
  }

  /** The text up to the next space has no spaces, so nothing of it is dropped. */
  lemma WordKept(line: string, start: nat, bound: nat)
    requires start < |line| && bound == FindFrom(line, ' ', start)
    ensures Reject(line[start..bound], IsSpace) == line[start..bound]
  {
    assert forall c :: c in line[start..bound] ==> !IsSpace(c);
    RejectNone(line[start..bound], IsSpace);
  }

  /** A run of spaces is dropped entirely. */
  lemma GapDropped(line: string, bound: nat, next: nat)
    requires bound <= |line| && next == SkipSpaces(line, bound)
    ensures Reject(line[bound..], IsSpace) == Reject(line[next..], IsSpace)
  {
    var gap := line[bound..next];
    assert forall c :: c in gap ==> IsSpace(c);
    RejectEvery(gap, IsSpace);
    assert line[bound..] == gap + line[next..];
    RejectAppend(gap, line[next..], IsSpace);
  }

  lemma SpacesRemoved(line: string)
    ensures Concat(Tokens(line)) == Reject(line, IsSpace)
  {
    if line != "" {
      ConcatTokensFrom(line, 0);
      assert line[0..] == line;
    }
  }

  // -----------------------------------------------------------------------
  // Joining a participant list

  /** turnVectorToString: the same '&' join the store writes to its file. */
  method TurnVectorToString(participators: seq<string>) returns (result: string)
    ensures result == Store.Join(participators)
  {
    result := "";
    var isFirstItem := true;
    var i := 0;
    while i < |participators|
      invariant 0 <= i <= |participators|
      invariant isFirstItem <==> i == 0
      invariant result == Store.Join(participators[..i])
    {
      if isFirstItem {
        isFirstItem := false;
      } else {
        result := result + "&";
      }
      result := result + participators[i];
      assert participators[..i + 1] == participators[..i] + [participators[i]];
      Store.JoinSnoc(participators[..i], participators[i]);
      i := i + 1;
    }
    assert participators[..|participators|] == participators;
  }

  // -----------------------------------------------------------------------
  // The login-state guard

  /** checkLoginState: a permission error naming the action exactly when the
      required and the actual login state differ. */
  function CheckLoginState(requiredLogin: bool, actualLogin: bool, action: string): (r: Outcome)
    ensures r.Fail? <==> requiredLogin != actualLogin
    ensures r.Fail? ==> r.error.PermissionError?
    ensures r.Fail? ==> "Command (" + action + ")" <= r.error.message
  {
    if requiredLogin == actualLogin then Pass
    else if !requiredLogin then
      Fail(PermissionError("Command (" + action + ") require a 'Log Out' state."))
    else
      Fail(PermissionError("Command (" + action + ") require a 'Log In' state."))
  }
}
