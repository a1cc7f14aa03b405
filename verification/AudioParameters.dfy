/**
 * Key-value strings of the audio HAL (hardware/meizu/m86/audio/audio_primary_m86.cpp): looking a key up, and rewriting
 * its value into a bounded buffer. C strings are strings without a NUL; positions in them are indices.
 */
module AudioParameters {
  import opened Bytes

  predicate IsSeparator(c: char) {
    c == ';' || c == ','
  }

  predicate IsSkipped(c: char) {
    IsSeparator(c) || c == ' '
  }

  predicate NoSeparator(s: string) {
    forall i :: 0 <= i < |s| ==> !IsSeparator(s[i])
  }

  /** `strpbrk(s, ";,")`, the length of `s` standing for NULL. */
  function Break(s: string): (n: nat)
    ensures n <= |s| && NoSeparator(s[..n])
    ensures n < |s| ==> IsSeparator(s[n])
  {
    if s == "" || IsSeparator(s[0]) then 0
    else
      assert forall i :: 0 < i < 1 + Break(s[1..]) ==> s[i] == s[1..][i - 1];
      1 + Break(s[1..])
  }

  /** The tokens of a string: between separators, without the separators and spaces in front of each. */
  function Tokens(s: string): seq<string> {
    if s == "" then []
    else if IsSkipped(s[0]) then Tokens(s[1..])
    else
      var n := Break(s);
      BreakIsPositive(s);
      [s[..n]] + Tokens(s[n..])
  }

  lemma BreakIsPositive(s: string)
    requires s != "" && !IsSkipped(s[0])
    ensures Break(s) > 0
  {
  }

  /** Whether a string is `key=...`. */
  predicate Matches(s: string, key: string) {
    key + "=" <= s
  }

  /** The value of the first token with a key. */
  function Lookup(tokens: seq<string>, key: string): Option<string> {
    if tokens == [] then None
    else if Matches(tokens[0], key) then Some(tokens[0][|key| + 1..])
    else Lookup(tokens[1..], key)
  }

  function Substitute(tokens: seq<string>, key: string, replacement: string): (r: seq<string>)
    ensures |r| == |tokens|
  {
    seq(|tokens|, i requires 0 <= i < |tokens| => if Matches(tokens[i], key) then replacement else tokens[i])
  }

  /** Tokens put together, with a separator wherever something stands before. */
  function Joined(tokens: seq<string>): string {
    if tokens == [] then ""
    else
      var front := Joined(tokens[..|tokens| - 1]);
      (if front == "" then "" else front + ";") + tokens[|tokens| - 1]
  }

  // ---- Tokens

  /** What a token can be. */
  predicate IsToken(t: string) {
    t != "" && t[0] != ' ' && NoSeparator(t)
  }

  lemma {:induction false} TokensAreTokens(s: string)
    ensures forall t :: t in Tokens(s) ==> IsToken(t)
    decreases |s|
  {
    if s == "" {
    } else if IsSkipped(s[0]) {
      TokensAreTokens(s[1..]);
    } else {
      BreakIsPositive(s);
      TokensAreTokens(s[Break(s)..]);
    }
  }

  lemma {:induction false} BreakOfToken(t: string, rest: string)
    requires NoSeparator(t) && (rest == "" || IsSeparator(rest[0]))
    ensures Break(t + rest) == |t|
  {
    if t == "" {
      assert t + rest == rest;
    } else {
      BreakOfToken(t[1..], rest);
      assert (t + rest)[1..] == t[1..] + rest;
    }
  }

  /** A token followed by nothing or by a separator is the first token of a string. */
  lemma TokensOfToken(t: string, rest: string)
    requires IsToken(t) && (rest == "" || IsSeparator(rest[0]))
    ensures Tokens(t + rest) == [t] + Tokens(rest)
  {
    BreakOfToken(t, rest);
    assert (t + rest)[..|t|] == t && (t + rest)[|t|..] == rest;
  }

  /** The rest of tokens joined. */
  lemma {:induction false} JoinedFront(t: string, tokens: seq<string>)
    requires t != ""
    ensures Joined([t] + tokens) == t + Tail(tokens)
  {
    if tokens == [] {
      assert [t] + tokens == [t] && [t][..0] == [];
    } else {
      var i := |tokens| - 1;
      JoinedFront(t, tokens[..i]);
      assert ([t] + tokens)[..|tokens|] == [t] + tokens[..i] && ([t] + tokens)[|tokens|] == tokens[i];
    }
  }

  /** Tokens each behind a separator. */
  function Tail(tokens: seq<string>): string {
    if tokens == [] then "" else Tail(tokens[..|tokens| - 1]) + ";" + tokens[|tokens| - 1]
  }

  lemma {:induction false} TailFront(t: string, tokens: seq<string>)
    ensures Tail([t] + tokens) == ";" + t + Tail(tokens)
  {
    if tokens == [] {
      assert [t] + tokens == [t] && [t][..0] == [];
    } else {
      var i := |tokens| - 1;
      TailFront(t, tokens[..i]);
      assert ([t] + tokens)[..|tokens|] == [t] + tokens[..i] && ([t] + tokens)[|tokens|] == tokens[i];
    }
  }

  lemma {:induction false} TokensOfTail(tokens: seq<string>)
    requires forall t :: t in tokens ==> IsToken(t)
    ensures Tokens(Tail(tokens)) == tokens
    ensures Tail(tokens) == "" || IsSeparator(Tail(tokens)[0])
  {
    if tokens != [] {
      var t, rest := tokens[0], tokens[1..];
      TokensOfTail(rest);
      assert tokens == [t] + rest;
      TailFront(t, rest);
      assert Tail(tokens)[1..] == t + Tail(rest);
      TokensOfToken(t, Tail(rest));
    }
  }

  /** Joining tokens and taking them apart again gives them back. */
  lemma TokensOfJoined(tokens: seq<string>)
    requires forall t :: t in tokens ==> IsToken(t)
    ensures Tokens(Joined(tokens)) == tokens
  {
    if tokens != [] {
      var t, rest := tokens[0], tokens[1..];
      assert tokens == [t] + rest && t in tokens;
      JoinedFront(t, rest);
      TokensOfTail(rest);
      TokensOfToken(t, Tail(rest));
    }
  }

  // ---- Keys

  /** A key that can be looked up: without separators and without '='. */
  predicate IsKey(key: string) {
    NoSeparator(key) && '=' !in key
  }

  /** What stands before the first '='. */
  function KeyOf(t: string): string {
    if t == "" || t[0] == '=' then "" else [t[0]] + KeyOf(t[1..])
  }

  lemma {:induction false} KeyOfMatching(t: string, key: string)
    requires '=' !in key && Matches(t, key)
    ensures KeyOf(t) == key
  {
    var k := key + "=";
    assert t[0] == k[0];
    if key != "" {
      assert k[1..] == key[1..] + "=" && k[1..] <= t[1..];
      KeyOfMatching(t[1..], key[1..]);
    }
  }

  /** A token has at most one key. */
  lemma MatchesOneKey(t: string, key: string, other: string)
    requires IsKey(key) && IsKey(other) && Matches(t, key)
    ensures Matches(t, other) ==> other == key
  {
    KeyOfMatching(t, key);
    if Matches(t, other) {
      KeyOfMatching(t, other);
    }
  }

  lemma SubstituteRest(tokens: seq<string>, key: string, replacement: string)
    requires tokens != []
    ensures Substitute(tokens, key, replacement)[1..] == Substitute(tokens[1..], key, replacement)
  {
  }

  /** After substitution, the key has the replacement's value wherever it had one, in every token that names it. */
  lemma {:induction false} LookupSubstituted(tokens: seq<string>, key: string, replacement: string)
    requires Matches(replacement, key)
    ensures Lookup(Substitute(tokens, key, replacement), key)
      == if Lookup(tokens, key).Some? then Some(replacement[|key| + 1..]) else None
    ensures forall t :: t in Substitute(tokens, key, replacement) && Matches(t, key) ==> t == replacement
  {
    if tokens != [] {
      SubstituteRest(tokens, key, replacement);
      LookupSubstituted(tokens[1..], key, replacement);
    }
  }

  /** Other keys keep their values. */
  lemma {:induction false} LookupOther(tokens: seq<string>, key: string, replacement: string, other: string)
    requires IsKey(key) && IsKey(other) && key != other && Matches(replacement, key)
    ensures Lookup(Substitute(tokens, key, replacement), other) == Lookup(tokens, other)
  {
    if tokens != [] {
      SubstituteRest(tokens, key, replacement);
      LookupOther(tokens[1..], key, replacement, other);
      MatchesOneKey(replacement, key, other);
      if Matches(tokens[0], key) {
        MatchesOneKey(tokens[0], key, other);
      }
    }
  }

  /** What the rewritten string says, when it is taken apart again. */
  lemma RewrittenLookups(s: string, key: string, replacement: string, other: string)
    requires IsKey(key) && IsKey(other) && key != other && IsToken(replacement) && Matches(replacement, key)
    ensures var rewritten := Tokens(Joined(Substitute(Tokens(s), key, replacement)));
      && rewritten == Substitute(Tokens(s), key, replacement)
      && Lookup(rewritten, key) == (if Lookup(Tokens(s), key).Some? then Some(replacement[|key| + 1..]) else None)
      && Lookup(rewritten, other) == Lookup(Tokens(s), other)
  {
    TokensAreTokens(s);
    TokensOfJoined(Substitute(Tokens(s), key, replacement));
    LookupSubstituted(Tokens(s), key, replacement);
    LookupOther(Tokens(s), key, replacement, other);
  }

  // ---- The loops

  lemma SkipOne(s: string, cursor: nat)
    requires cursor < |s| && IsSkipped(s[cursor])
    ensures Tokens(s[cursor..]) == Tokens(s[cursor + 1..])
  {
  }

  /** Past separators and spaces. */
  method Skip(s: string, cursor: nat) returns (next: nat)
    requires cursor <= |s|
    ensures cursor <= next <= |s| && Tokens(s[next..]) == Tokens(s[cursor..])
    ensures next < |s| ==> !IsSkipped(s[next])
  {
    hide Tokens;
    next := cursor;
    while next < |s| && IsSkipped(s[next])
      invariant cursor <= next <= |s| && Tokens(s[next..]) == Tokens(s[cursor..])
    {
      SkipOne(s, next);
      next := next + 1;
    }
  }

  /** A key without separators is matched inside the first token. */
  lemma MatchesFirstToken(rest: string, key: string)
    requires NoSeparator(key)
    ensures Matches(rest, key) <==> Matches(rest[..Break(rest)], key)
    ensures Matches(rest, key) ==> Break(rest) == |key| + 1 + Break(rest[|key| + 1..])
  {
    if Matches(rest, key) {
      var k := key + "=";
      assert rest == k + rest[|k|..];
      BreakOfPrefix(k, rest[|k|..]);
    }
  }

  lemma {:induction false} BreakOfPrefix(k: string, rest: string)
    requires NoSeparator(k)
    ensures Break(k + rest) == |k| + Break(rest)
  {
    if k == "" {
      assert k + rest == rest;
    } else {
      BreakOfPrefix(k[1..], rest);
      assert (k + rest)[1..] == k[1..] + rest;
    }
  }

  /** The tokens from a position where one starts. */
  lemma NextToken(s: string, cursor: nat)
    requires cursor < |s| && !IsSkipped(s[cursor])
    ensures var rest := s[cursor..]; var n := Break(rest);
      Tokens(rest) == [rest[..n]] + Tokens(s[if n == |rest| then cursor + n else cursor + n + 1..])
  {
    hide Break;
    var rest := s[cursor..];
    var n := Break(rest);
    assert rest[n..] == s[cursor + n..] && rest[0] == s[cursor];
    assert Tokens(rest) == [rest[..n]] + Tokens(rest[n..]);
    if n < |rest| {
      SkipOne(s, cursor + n);
    }
  }

  /** `m86_find_parameter`: the value of the first token with the key, cut to what the buffer holds. */
  method FindParameter(s: string, key: string, valueSize: nat) returns (found: bool, value: string)
    requires NoSeparator(key)
    ensures found <==> valueSize != 0 && Lookup(Tokens(s), key).Some?
    ensures found ==> var v := Lookup(Tokens(s), key).value; value == if |v| < valueSize then v else v[..valueSize - 1]
  {
    hide Tokens, Break;
    if valueSize == 0 {
      return false, "";
    }
    var cursor := 0;
    assert s[0..] == s;
    while cursor < |s|
      invariant cursor <= |s| && Lookup(Tokens(s), key) == Lookup(Tokens(s[cursor..]), key)
    {
      cursor := Skip(s, cursor);
      var rest := s[cursor..];
      MatchesFirstToken(rest, key);
      if cursor < |s| {
        NextToken(s, cursor);
      }
      if Matches(rest, key) {
        var start := rest[|key| + 1..];
        var length := Break(start);
        var copied := if length < valueSize - 1 then length else valueSize - 1;
        assert rest[..Break(rest)][|key| + 1..] == start[..length];
        assert start[..copied] == if length < valueSize then start[..length] else start[..length][..valueSize - 1];
        return true, start[..copied];
      }
      var next := Break(rest);
      if next == |rest| {
        cursor := cursor + next;
        break;
      }
      cursor := cursor + next + 1;
    }
    NoTokens();
    assert s[cursor..] == "";
    found, value := false, "";
  }

  lemma NoTokens()
    ensures Tokens("") == []
  {
  }

  lemma JoinedSnoc(tokens: seq<string>, t: string)
    ensures Joined(tokens + [t]) == (if Joined(tokens) == "" then "" else Joined(tokens) + ";") + t
  {
    assert (tokens + [t])[..|tokens|] == tokens;
  }

  /** Joining more tokens never makes it shorter. */
  lemma {:induction false} JoinedGrows(a: seq<string>, b: seq<string>)
    ensures |Joined(a)| <= |Joined(a + b)|
  {
    if b == [] {
      assert a + b == a;
    } else {
      var i := |b| - 1;
      JoinedGrows(a, b[..i]);
      assert a + b == a + b[..i] + [b[i]];
      JoinedSnoc(a + b[..i], b[i]);
    }
  }

  lemma SubstituteConcat(a: seq<string>, b: seq<string>, key: string, replacement: string)
    ensures Substitute(a + b, key, replacement) == Substitute(a, key, replacement) + Substitute(b, key, replacement)
  {
  }

  lemma {:induction false} LookupSnoc(tokens: seq<string>, t: string, key: string)
    ensures Lookup(tokens + [t], key).Some? <==> Lookup(tokens, key).Some? || Matches(t, key)
  {
    if tokens != [] {
      LookupSnoc(tokens[1..], t, key);
      assert (tokens + [t])[1..] == tokens[1..] + [t];
    }
  }

  /** `memcpy` of a string into the buffer. */
  method Write(output: array<char>, at: nat, text: string)
    requires at + |text| <= output.Length
    modifies output
    ensures output[..at + |text|] == old(output[..at]) + text
  {
    for i := 0 to |text|
      invariant output[..at + i] == old(output[..at]) + text[..i]
    {
      output[at + i] := text[i];
    }
  }

  /** A token behind a separator, unless it is the first, and a NUL. */
  method AppendToken(output: array<char>, used: nat, token: string) returns (end: nat)
    requires used + (if used == 0 then 0 else 1) + |token| < output.Length
    modifies output
    ensures end == used + (if used == 0 then 0 else 1) + |token| && output[end] == 0 as char
    ensures output[..end] == (if used == 0 then "" else old(output[..used]) + ";") + token
  {
    end := used;
    if used != 0 {
      Write(output, end, ";");
      end := end + 1;
    }
    Write(output, end, token);
    end := end + |token|;
    ghost var text := output[..end];
    output[end] := 0 as char;
    assert output[..end] == text;
  }

  /**
   * `m86_replace_parameter`: the tokens with every one that has the key replaced, joined, and a NUL. It reports success
   * exactly when a token had the key and the result fits the buffer.
   */
  method ReplaceParameter(s: string, key: string, replacement: string, output: array<char>) returns (replaced: bool)
    requires NoSeparator(key)
    modifies output
    ensures var joined := Joined(Substitute(Tokens(s), key, replacement));
      && (replaced <==> Lookup(Tokens(s), key).Some? && |joined| < output.Length)
      && (replaced ==> output[..|joined| + 1] == joined + [0 as char])
  {
    hide Tokens, Break, Joined, Substitute;
    replaced := false;
    if output.Length == 0 {
      return;
    }
    var cursor, used := 0, 0;
    ghost var done: seq<string> := [];
    Nothing(key, replacement);
    assert s[0..] == s && [] + Tokens(s) == Tokens(s);
    while cursor < |s|
      invariant cursor <= |s| && Tokens(s) == done + Tokens(s[cursor..])
      invariant 0 <= used < output.Length && output[..used] == Joined(Substitute(done, key, replacement))
      invariant done != [] ==> output[used] == 0 as char
      invariant replaced <==> Lookup(done, key).Some?
    {
      cursor := Skip(s, cursor);
      if cursor == |s| {
        break;
      }
      var rest := s[cursor..];
      var end := Break(rest);
      NextToken(s, cursor);
      MatchesFirstToken(rest, key);
      var matches := Matches(rest, key);
      var token := if matches then replacement else rest[..end];
      ghost var was, front := done, Joined(Substitute(done, key, replacement));
      assert output[..used] == front && (used == 0 <==> front == "");
      done := done + [rest[..end]];
      cursor := if end == |rest| then cursor + end else cursor + end + 1;
      assert was + ([rest[..end]] + Tokens(s[cursor..])) == done + Tokens(s[cursor..]);
      OneToken(was, rest[..end], key, replacement);
      Remaining(done, Tokens(s[cursor..]), key, replacement);
      var separatorSize := if used == 0 then 0 else 1;
      if used + separatorSize + |token| + 1 > output.Length {
        return false;
      }
      used := AppendToken(output, used, token);
      LookupSnoc(was, rest[..end], key);
      replaced := replaced || matches;
    }
    NoTokens();
    assert s[cursor..] == "" && done + [] == done;
    ghost var joined := Joined(Substitute(done, key, replacement));
    assert output[..used] == joined && output[..used + 1] == output[..used] + [output[used]];
  }

  lemma Nothing(key: string, replacement: string)
    ensures Joined(Substitute([], key, replacement)) == "" && Lookup([], key) == None
  {
  }

  /** One more token substituted and joined. */
  lemma OneToken(done: seq<string>, t: string, key: string, replacement: string)
    ensures var front := Joined(Substitute(done, key, replacement));
      Joined(Substitute(done + [t], key, replacement))
        == (if front == "" then "" else front + ";") + if Matches(t, key) then replacement else t
  {
    hide Joined;
    SubstituteConcat(done, [t], key, replacement);
    var t' := if Matches(t, key) then replacement else t;
    assert Substitute([t], key, replacement) == [t'];
    JoinedSnoc(Substitute(done, key, replacement), t');
  }

  /** What is joined so far is no longer than the result. */
  lemma Remaining(done: seq<string>, rest: seq<string>, key: string, replacement: string)
    ensures |Joined(Substitute(done, key, replacement))| <= |Joined(Substitute(done + rest, key, replacement))|
  {
    hide Joined, Substitute;
    SubstituteConcat(done, rest, key, replacement);
    JoinedGrows(Substitute(done, key, replacement), Substitute(rest, key, replacement));
  }

  /** How strings come apart: separators and leading spaces go, a token ends before ';' or ','. */
  lemma TokenLaws(t: string, c: char, rest: string)
    requires c == ';' || c == ','
    ensures Tokens("") == [] && Tokens([c] + rest) == Tokens(rest) && Tokens(" " + rest) == Tokens(rest)
    ensures t != "" && t[0] != ' ' && (forall i :: 0 <= i < |t| ==> t[i] != ';' && t[i] != ',') ==>
      Tokens(t) == [t] && Tokens(t + [c] + rest) == [t] + Tokens(rest)
  {
    assert ([c] + rest)[1..] == rest && (" " + rest)[1..] == rest;
    if t != "" && t[0] != ' ' && forall i :: 0 <= i < |t| ==> t[i] != ';' && t[i] != ',' {
      TokensOfToken(t, "");
      assert t + "" == t;
      TokensOfToken(t, [c] + rest);
      assert t + [c] + rest == t + ([c] + rest);
    }
  }

  /** How a key is looked up: in the first token that begins with it and '='; and how tokens are put together, with ';'. */
  lemma LookupLaws(key: string, value: string, t: string, rest: seq<string>)
    ensures Lookup([], key) == None && Lookup([key + "=" + value] + rest, key) == Some(value)
    ensures !(key + "=" <= t) ==> Lookup([t] + rest, key) == Lookup(rest, key)
    ensures Joined([]) == "" && (t != "" ==> Joined([t]) == t && Joined([t, value]) == t + ";" + value)
  {
    assert ([t] + rest)[1..] == rest && (key + "=" + value)[|key| + 1..] == value;
    assert [t][..0] == [] && [t, value][..1] == [t];
  }
}
