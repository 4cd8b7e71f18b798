/** The tokenizer of the kernel's string functions (kernel/src/KiSimple.c).

    `Runs` says what the tokens of a text are; `Strings.Tokenizer` is strtok with its state hidden
    between calls, cutting the text up in place. */
module Runs {
  /** Characters start .. stop - 1 of a text. */
  datatype Run = Run(start: nat, stop: nat)

  /** A maximal delimiter-free run. */
  predicate IsRun(t: string, delim: string, r: Run) {
    && r.start < r.stop <= |t|
    && (forall k :: r.start <= k < r.stop ==> t[k] !in delim)
    && (r.start > 0 ==> t[r.start - 1] in delim)
    && (r.stop < |t| ==> t[r.stop] in delim)
  }

  /** First position from i on that holds no delimiter, or the end. */
  function SkipDelims(t: string, delim: string, i: nat): (k: nat)
    requires i <= |t|
    ensures i <= k <= |t|
    ensures forall j :: i <= j < k ==> t[j] in delim
    ensures k < |t| ==> t[k] !in delim
    decreases |t| - i
  {
    if i < |t| && t[i] in delim then SkipDelims(t, delim, i + 1) else i
  }

  /** First position from i on that holds a delimiter, or the end. */
  function SkipToken(t: string, delim: string, i: nat): (k: nat)
    requires i <= |t|
    ensures i <= k <= |t|
    ensures forall j :: i <= j < k ==> t[j] !in delim
    ensures k < |t| ==> t[k] in delim
    decreases |t| - i
  {
    if i < |t| && t[i] !in delim then SkipToken(t, delim, i + 1) else i
  }

  /** What successive calls find from position i on: the next run, then those behind its delimiter. */
  function Tokens(t: string, delim: string, i: nat): seq<Run>
    requires i <= |t|
    decreases |t| - i
  {
    var a := SkipDelims(t, delim, i);
    if a == |t| then []
    else
      var e := SkipToken(t, delim, a);
      [Run(a, e)] + if e < |t| then Tokens(t, delim, e + 1) else []
  }

  ghost predicate AtBoundary(t: string, delim: string, i: nat)
    requires i <= |t|
  {
    i == 0 || t[i - 1] in delim
  }

  lemma FirstIsRun(t: string, delim: string, i: nat)
    requires i <= |t| && AtBoundary(t, delim, i) && SkipDelims(t, delim, i) < |t|
    ensures var a := SkipDelims(t, delim, i); IsRun(t, delim, Run(a, SkipToken(t, delim, a)))
  {
  }

  lemma TokensUnfold(t: string, delim: string, i: nat)
    requires i <= |t|
    ensures var a := SkipDelims(t, delim, i);
      Tokens(t, delim, i) ==
        if a == |t| then []
        else var e := SkipToken(t, delim, a); [Run(a, e)] + (if e < |t| then Tokens(t, delim, e + 1) else [])
  {
    hide SkipDelims, SkipToken;
  }

  lemma {:induction false} TokensAreRuns(t: string, delim: string, i: nat)
    requires i <= |t| && AtBoundary(t, delim, i)
    ensures forall r :: r in Tokens(t, delim, i) ==> IsRun(t, delim, r) && i <= r.start
    decreases |t| - i
  {
    hide IsRun, Tokens;
    TokensUnfold(t, delim, i);
    var a := SkipDelims(t, delim, i);
    if a < |t| {
      FirstIsRun(t, delim, i);
      var e := SkipToken(t, delim, a);
      if e < |t| {
        TokensAreRuns(t, delim, e + 1);
      }
    }
  }

  /** A run behind a boundary is the next token or lies behind its delimiter. */
  lemma NextRun(t: string, delim: string, i: nat, r: Run)
    requires i <= |t| && AtBoundary(t, delim, i) && IsRun(t, delim, r) && i <= r.start
    ensures var a := SkipDelims(t, delim, i);
      a < |t| && var e := SkipToken(t, delim, a); r == Run(a, e) || (e < |t| && e + 1 <= r.start)
  {
    hide Tokens;
    var a := SkipDelims(t, delim, i);
    assert t[r.start] !in delim;
    var e := SkipToken(t, delim, a);
    if r.start < e {
      assert r.start == a;
      assert t[r.stop - 1] !in delim;
      assert r.stop == e;
    }
  }

  lemma {:induction false} RunsAreTokens(t: string, delim: string, i: nat, r: Run)
    requires i <= |t| && AtBoundary(t, delim, i) && IsRun(t, delim, r) && i <= r.start
    ensures r in Tokens(t, delim, i)
    decreases |t| - i
  {
    hide Tokens, IsRun;
    NextRun(t, delim, i, r);
    TokensUnfold(t, delim, i);
    var e := SkipToken(t, delim, SkipDelims(t, delim, i));
    if e < r.start {
      RunsAreTokens(t, delim, e + 1, r);
    }
  }

  ghost predicate InOrder(rs: seq<Run>) {
    forall i, j :: 0 <= i < j < |rs| ==> rs[i].stop < rs[j].start
  }

  lemma FewInOrder(rs: seq<Run>)
    requires |rs| <= 1
    ensures InOrder(rs)
  {
  }

  lemma OneMoreInOrder(r: Run, rest: seq<Run>)
    requires InOrder(rest) && forall x :: x in rest ==> r.stop < x.start
    ensures InOrder([r] + rest)
  {
    assert forall j :: 0 <= j < |rest| ==> rest[j] in rest;
  }

  lemma {:induction false} TokensInOrder(t: string, delim: string, i: nat)
    requires i <= |t| && AtBoundary(t, delim, i)
    ensures InOrder(Tokens(t, delim, i))
    decreases |t| - i
  {
    hide IsRun, Tokens, InOrder;
    var a := SkipDelims(t, delim, i);
    TokensUnfold(t, delim, i);
    if a == |t| {
      FewInOrder(Tokens(t, delim, i));
    } else {
      var e := SkipToken(t, delim, a);
      if e == |t| {
        FewInOrder(Tokens(t, delim, i));
      } else {
        TokensInOrder(t, delim, e + 1);
        TokensAreRuns(t, delim, e + 1);
        OneMoreInOrder(Run(a, e), Tokens(t, delim, e + 1));
      }
    }
  }

  /** The tokens are exactly the maximal delimiter-free runs of the text, each once and in order. */
  lemma TokensAreTheMaximalRuns(t: string, delim: string)
    ensures forall r :: r in Tokens(t, delim, 0) <==> IsRun(t, delim, r)
    ensures InOrder(Tokens(t, delim, 0))
  {
    TokensAreRuns(t, delim, 0);
    forall r | IsRun(t, delim, r)
      ensures r in Tokens(t, delim, 0)
    {
      RunsAreTokens(t, delim, 0, r);
    }
    TokensInOrder(t, delim, 0);
  }
}

module Strings {
  import opened Words
  import opened Runs

  /** Index of the terminator. */
  function Strlen(s: seq<char>, i: nat): (n: nat)
    requires i <= |s|
    ensures i <= n <= |s|
    ensures forall k :: i <= k < n ==> s[k] != '\0'
    ensures n < |s| ==> s[n] == '\0'
    decreases |s| - i
  {
    if i == |s| || s[i] == '\0' then i else Strlen(s, i + 1)
  }

  predicate HasTerminator(s: seq<char>) {
    Strlen(s, 0) < |s|
  }

  /** The C string at the beginning of a buffer. */
  function TextOf(s: seq<char>): string {
    s[..Strlen(s, 0)]
  }

  /** The first occurrence of c; the terminator is never found. */
  method Strchr(s: string, c: char) returns (at: Option<nat>)
    requires '\0' !in s
    ensures match at
      case None => c !in s
      case Some(i) => i < |s| && s[i] == c && c !in s[..i]
  {
    var i := 0;
    while i < |s|
      invariant i <= |s| && c !in s[..i]
    {
      if s[i] == c {
        return Some(i);
      }
      i := i + 1;
    }
    assert s[..i] == s;
    return None;
  }

  /** The run stands in the buffer as a C string of its own. */
  ghost predicate IsCut(s: seq<char>, t: string, r: Run) {
    r.start <= r.stop <= |t| < |s| && s[r.start..r.stop] == t[r.start..r.stop] && s[r.stop] == '\0'
  }

  /** After a call: the token is the first of `rest`, cut off, and the others lie ahead. */
  ghost predicate Found(token: Option<nat>, live: bool, next: nat, s: seq<char>, t: string, delim: string,
                        rest: seq<Run>) {
    if token.None? then rest == [] && !live
    else
      && rest != [] && token.value == rest[0].start && IsCut(s, t, rest[0])
      && if live then rest[0].stop < next <= |t| && rest[1..] == Tokens(t, delim, next) else rest[1..] == []
  }

  lemma FoundMeans(token: Option<nat>, live: bool, next: nat, s: seq<char>, t: string, delim: string, rest: seq<Run>)
    requires Found(token, live, next, s, t, delim, rest)
    ensures if token.None? then rest == [] && !live
      else rest != [] && token.value == rest[0].start && rest[0].start <= rest[0].stop && IsCut(s, t, rest[0])
           && if live then rest[0].stop < next <= |t| && rest[1..] == Tokens(t, delim, next) else rest[1..] == []
  {
  }

  lemma NothingFound(next: nat, s: seq<char>, t: string, delim: string)
    ensures Found(None, false, next, s, t, delim, [])
  {
  }

  /** From position `next` on the buffer still holds the text, and its terminator. */
  ghost predicate Holds(s: seq<char>, text: string, next: nat) {
    && next <= |text| < |s| && '\0' !in text
    && (forall k :: next <= k < |text| ==> s[k] == text[k]) && s[|text|] == '\0'
  }

  lemma HeldText(s: seq<char>, t: string, next: nat)
    requires Holds(s, t, next)
    ensures next <= |t| < |s| && '\0' !in t && s[|t|] == '\0'
    ensures forall k :: next <= k < |t| ==> s[k] == t[k] != '\0'
  {
    assert forall k :: 0 <= k < |t| ==> t[k] in t;
  }

  lemma CutAt(s: seq<char>, t: string, next: nat, a: nat, e: nat)
    requires Holds(s, t, next) && next <= a <= e <= |t|
    ensures e < |s| && IsCut(s[e := '\0'], t, Run(a, e))
  {
  }

  /** The first of the tokens from `next` on, and what writing its terminator does. */
  lemma FirstToken(s: seq<char>, t: string, delim: string, next: nat)
    requires Holds(s, t, next)
    ensures next <= |t| < |s|
    ensures var a := SkipDelims(t, delim, next);
      if a == |t| then Tokens(t, delim, next) == []
      else
        var e := SkipToken(t, delim, a);
        && e < |s|
        && Tokens(t, delim, next) == [Run(a, e)] + (if e < |t| then Tokens(t, delim, e + 1) else [])
        && next <= a <= e && IsCut(s[e := '\0'], t, Run(a, e))
  {
    hide IsCut, Holds, SkipDelims, SkipToken, Tokens;
    HeldText(s, t, next);
    TokensUnfold(t, delim, next);
    var a := SkipDelims(t, delim, next);
    if a < |t| {
      CutAt(s, t, next, a, SkipToken(t, delim, a));
    }
  }

  lemma CallFinds(s: seq<char>, s': seq<char>, t: string, delim: string, p: nat, token: Option<nat>, live: bool,
                  next: nat)
    requires Holds(s, t, p) && p <= |t| < |s|
    requires var a := SkipDelims(t, delim, p);
      if a == |t| then token == None && !live && s' == s
      else
        var e := SkipToken(t, delim, a);
        token == Some(a) && e < |s| && s' == s[e := '\0'] && (if e < |t| then live && next == e + 1 else !live)
    ensures var rest := Tokens(t, delim, p);
      && Found(token, live, next, s', t, delim, rest)
      && if rest == [] then s' == s else p <= rest[0].start <= rest[0].stop < |s| && s' == s[rest[0].stop := '\0']
  {
    hide SkipDelims, SkipToken, Holds, IsCut, Tokens;
    FirstToken(s, t, delim, p);
  }

  ghost predicate AllCut(tokens: seq<nat>, found: seq<Run>, s: seq<char>, t: string) {
    |tokens| == |found| && forall i :: 0 <= i < |found| ==> tokens[i] == found[i].start && IsCut(s, t, found[i])
  }

  lemma NothingCut(s: seq<char>, t: string)
    ensures AllCut([], [], s, t)
  {
  }

  lemma OneMoreCut(tokens: seq<nat>, found: seq<Run>, s: seq<char>, t: string, r: Run)
    requires AllCut(tokens, found, s, t) && IsCut(s, t, r)
    ensures AllCut(tokens + [r.start], found + [r], s, t)
  {
  }

  lemma AllCutMeans(tokens: seq<nat>, found: seq<Run>, s: seq<char>, t: string)
    requires AllCut(tokens, found, s, t)
    ensures |tokens| == |found| && forall i :: 0 <= i < |found| ==> tokens[i] == found[i].start && IsCut(s, t, found[i])
  {
  }

  lemma CutStays(s: seq<char>, t: string, r: Run, later: Run)
    requires IsCut(s, t, r) && r.stop < later.start <= later.stop < |s|
    ensures IsCut(s[later.stop := '\0'], t, r)
  {
  }

  lemma CutsStay(tokens: seq<nat>, found: seq<Run>, s: seq<char>, t: string, later: Run)
    requires AllCut(tokens, found, s, t) && later.start <= later.stop < |s|
    requires forall i :: 0 <= i < |found| ==> found[i].stop < later.start
    ensures AllCut(tokens, found, s[later.stop := '\0'], t)
  {
    hide IsCut;
    forall i | 0 <= i < |found|
      ensures IsCut(s[later.stop := '\0'], t, found[i])
    {
      CutStays(s, t, found[i], later);
    }
  }

  lemma HeldFurther(s: seq<char>, t: string, next: nat, i: nat)
    requires Holds(s, t, next) && next <= i <= |t|
    ensures Holds(s, t, i)
  {
  }

  lemma CutKeepsRest(s: seq<char>, t: string, next: nat, e: nat)
    requires Holds(s, t, next) && next <= e <= |t|
    ensures e < |s| && (e < |t| ==> Holds(s[e := '\0'], t, e + 1))
  {
  }

  lemma TextIsHeld(s: seq<char>)
    requires HasTerminator(s)
    ensures Holds(s, TextOf(s), 0) && |TextOf(s)| < |s|
  {
  }

  class Tokenizer {
    /** The static pointer: a position in a buffer, or NULL. */
    var buffer: array?<char>
    var next: nat
    /** The text the current buffer held when tokenizing began. */
    ghost var text: string

    ghost predicate Valid()
      reads this, buffer
    {
      buffer != null ==> Holds(buffer[..], text, next)
    }

    constructor ()
      ensures Valid() && buffer == null
    {
      buffer, next, text := null, 0, "";
    }

    /** One call.  With a string it starts over, with NULL it goes on behind the last token; a token is
        terminated in place, and after the last one every call returns NULL. */
    method Strtok(str: array?<char>, delim: string) returns (token: Option<nat>)
      requires Valid() && '\0' !in delim && (str != null ==> HasTerminator(str[..]))
      modifies this, str, buffer
      ensures Valid()
      ensures str == null && old(buffer) == null ==> token == None && buffer == null
      ensures old(buffer) != null && str != null && old(buffer) != str ==> old(buffer)[..] == old(buffer[..])
      ensures var b := if str != null then str else old(buffer);
        b != null ==>
          var t := if str != null then old(TextOf(str[..])) else old(text);
          var a := SkipDelims(t, delim, if str != null then 0 else old(next));
          if a == |t| then token == None && buffer == null && b[..] == old(b[..])
          else
            var e := SkipToken(t, delim, a);
            && token == Some(a) && e < b.Length && b[..] == old(b[..])[e := '\0']
            && (if e < |t| then buffer == b && next == e + 1 && text == t else buffer == null)
    {
      hide Holds, SkipDelims, SkipToken, TextOf, HasTerminator;
      if str != null {
        TextIsHeld(str[..]);
        buffer, next, text := str, 0, TextOf(str[..]);
      }
      if buffer == null {
        return None;
      }
      var b: array<char> := buffer;
      ghost var t := text;
      HeldText(b[..], t, next);
      var start := FindStart(b, next, delim, t);
      if b[start] == '\0' {
        buffer := null;
        return None;
      }
      HeldFurther(b[..], t, next, start);
      var end := FindEnd(b, start, delim, t);
      CutKeepsRest(b[..], t, next, end);
      if b[end] != '\0' {
        b[end] := '\0';
        next := end + 1;
      } else {
        assert b[..] == b[..][end := '\0'];
        buffer := null;
      }
      token := Some(start);
    }

    /** Skips leading delimiters. */
    method FindStart(b: array<char>, p: nat, delim: string, ghost t: string) returns (start: nat)
      requires Holds(b[..], t, p) && '\0' !in delim
      ensures start == SkipDelims(t, delim, p) < b.Length && (b[start] == '\0' <==> start == |t|)
    {
      hide Holds;
      HeldText(b[..], t, p);
      start := p;
      while b[start] != '\0'
        invariant p <= start <= |t| && SkipDelims(t, delim, start) == SkipDelims(t, delim, p)
        decreases |t| - start
      {
        var found := Strchr(delim, b[start]);
        if found.None? {
          break;
        }
        start := start + 1;
      }
    }

    /** Finds the end of the token. */
    method FindEnd(b: array<char>, start: nat, delim: string, ghost t: string) returns (end: nat)
      requires Holds(b[..], t, start) && '\0' !in delim
      ensures end == SkipToken(t, delim, start) < b.Length && (b[end] == '\0' <==> end == |t|)
    {
      hide Holds;
      HeldText(b[..], t, start);
      end := start;
      while b[end] != '\0'
        invariant start <= end <= |t| && SkipToken(t, delim, end) == SkipToken(t, delim, start)
        decreases |t| - end
      {
        var found := Strchr(delim, b[end]);
        if found.Some? {
          break;
        }
        end := end + 1;
      }
    }

    /** strtok(s, d), strtok(NULL, d), ... until NULL: the starts of all maximal delimiter-free runs in order,
        each of them terminated where it ends. */
    method TokenizeAll(str: array<char>, delim: string) returns (tokens: seq<nat>)
      requires Valid() && '\0' !in delim && HasTerminator(str[..])
      modifies this, str, buffer
      ensures Valid() && buffer == null
      ensures old(buffer) != null && old(buffer) != str ==> old(buffer)[..] == old(buffer[..])
      ensures var t := old(TextOf(str[..])); var runs := Tokens(t, delim, 0);
        |tokens| == |runs| && forall i :: 0 <= i < |runs| ==> tokens[i] == runs[i].start && IsCut(str[..], t, runs[i])
    {
      hide SkipDelims, SkipToken, Holds, IsCut, Tokens, TextOf, HasTerminator, AllCut, Found;
      ghost var t := TextOf(str[..]);
      ghost var found: seq<Run>, rest: seq<Run> := [], Tokens(t, delim, 0);
      TextIsHeld(str[..]);
      ghost var before := str[..];
      tokens := [];
      var token := Strtok(str, delim);
      CallFinds(before, str[..], t, delim, 0, token, buffer != null, next);
      NothingCut(str[..], t);
      while token.Some?
        invariant Valid() && Tokens(t, delim, 0) == found + rest
        invariant old(buffer) != null && old(buffer) != str ==> old(buffer)[..] == old(buffer[..])
        invariant buffer != null ==> buffer == str && text == t
        invariant Found(token, buffer != null, next, str[..], t, delim, rest)
        invariant AllCut(tokens, found, str[..], t)
        invariant forall i :: 0 <= i < |found| && rest != [] ==> found[i].stop < rest[0].start
        decreases |rest|
      {
        FoundMeans(token, buffer != null, next, str[..], t, delim, rest);
        OneMoreCut(tokens, found, str[..], t, rest[0]);
        assert found + rest == (found + [rest[0]]) + rest[1..];
        tokens := tokens + [token.value];
        found, rest := found + [rest[0]], rest[1..];
        before := str[..];
        ghost var live, p := buffer != null, next;
        token := Strtok(null, delim);
        if live {
          CallFinds(before, str[..], t, delim, p, token, buffer != null, next);
          if rest != [] {
            CutsStay(tokens, found, before, t, rest[0]);
          }
        } else {
          NothingFound(next, str[..], t, delim);
        }
      }
      FoundMeans(token, buffer != null, next, str[..], t, delim, rest);
      AllCutMeans(tokens, found, str[..], t);
      assert found + rest == found;
    }
  }
}
