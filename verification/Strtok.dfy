/** Splitting strings: the pure split, and the tokeniser that works in place with a saved pointer. */
module Strtok {
  // ----- The pure split ---------------------------------------------------------------------

  /** The first index of the window p..e that holds no delimiter, or e. */
  function Skip(s: string, d: string, p: nat, e: nat): (k: nat)
    requires p <= e <= |s|
    ensures p <= k <= e
    decreases e - p
  {
    if p == e || s[p] !in d then p else Skip(s, d, p + 1, e)
  }

  /** The first index of the window p..e that holds a delimiter, or e. */
  function Stop(s: string, d: string, p: nat, e: nat): (k: nat)
    requires p <= e <= |s|
    ensures p <= k <= e
    decreases e - p
  {
    if p == e || s[p] in d then p else Stop(s, d, p + 1, e)
  }

  lemma {:induction false} SkipSpec(s: string, d: string, p: nat, e: nat)
    requires p <= e <= |s|
    ensures var k := Skip(s, d, p, e);
            (forall i | p <= i < k :: s[i] in d) && (k < e ==> s[k] !in d)
    decreases e - p
  {
    if p < e && s[p] in d { SkipSpec(s, d, p + 1, e); }
  }

  lemma {:induction false} StopSpec(s: string, d: string, p: nat, e: nat)
    requires p <= e <= |s|
    ensures var k := Stop(s, d, p, e);
            (forall i | p <= i < k :: s[i] !in d) && (k < e ==> s[k] in d)
            && (p < e && s[p] !in d ==> p < k)
    decreases e - p
  {
    if p < e && s[p] !in d { StopSpec(s, d, p + 1, e); }
  }

  /** The places of the tokens in the window. */
  function Spans(s: string, d: string, p: nat, e: nat): seq<(nat, nat)>
    requires p <= e <= |s|
    decreases e - p
  {
    var i := Skip(s, d, p, e);
    SkipSpec(s, d, p, e);
    StopSpec(s, d, i, e);
    if i == e then [] else [(i, Stop(s, d, i, e))] + Spans(s, d, Stop(s, d, i, e), e)
  }

  /** The tokens in the window. */
  function TokensIn(s: string, d: string, p: nat, e: nat): seq<string>
    requires p <= e <= |s|
    decreases e - p
  {
    var i := Skip(s, d, p, e);
    SkipSpec(s, d, p, e);
    StopSpec(s, d, i, e);
    if i == e then [] else [s[i..Stop(s, d, i, e)]] + TokensIn(s, d, Stop(s, d, i, e), e)
  }

  function Tokens(s: string, d: string): seq<string> {
    TokensIn(s, d, 0, |s|)
  }

  /** A run without delimiters that cannot be made longer. */
  predicate MaximalRun(s: string, d: string, i: nat, j: nat) {
    && i < j <= |s|
    && (forall k | i <= k < j :: s[k] !in d)
    && (i > 0 ==> s[i - 1] in d)
    && (j < |s| ==> s[j] in d)
  }

  /** The spans are exactly the maximal runs. */
  lemma {:induction false} SpansAreMaximalRuns(s: string, d: string, p: nat, i: nat, j: nat)
    requires p <= |s| && (p > 0 && p < |s| ==> s[p - 1] in d || s[p] in d)
    ensures (i, j) in Spans(s, d, p, |s|) <==> p <= i && MaximalRun(s, d, i, j)
    decreases |s| - p
  {
    var a := Skip(s, d, p, |s|);
    SkipSpec(s, d, p, |s|);
    if p <= i && MaximalRun(s, d, i, j) {
      assert s[i] !in d;
      assert i >= a;
    }
    if a < |s| {
      var b := Stop(s, d, a, |s|);
      StopSpec(s, d, a, |s|);
      assert Spans(s, d, p, |s|) == [(a, b)] + Spans(s, d, b, |s|);
      SpansAreMaximalRuns(s, d, b, i, j);
      FirstRun(s, d, p, i, j);
    }
  }

  lemma FirstRun(s: string, d: string, p: nat, i: nat, j: nat)
    requires p <= |s| && (p > 0 && p < |s| ==> s[p - 1] in d || s[p] in d)
    requires Skip(s, d, p, |s|) < |s|
    ensures var a := Skip(s, d, p, |s|);
            var b := Stop(s, d, a, |s|);
            && MaximalRun(s, d, a, b)
            && (MaximalRun(s, d, i, j) && a <= i < b ==> i == a && j == b)
  {
    var a := Skip(s, d, p, |s|);
    SkipSpec(s, d, p, |s|);
    StopSpec(s, d, a, |s|);
    assert a > p ==> s[a - 1] in d;
  }

  /** In order: each span ends before the next begins. */
  lemma {:induction false} SpansInOrder(s: string, d: string, p: nat, e: nat, m: nat, n: nat)
    requires p <= e <= |s| && m < n < |Spans(s, d, p, e)|
    ensures var spans := Spans(s, d, p, e);
            p <= spans[m].0 < spans[m].1 < spans[n].0
    decreases e - p
  {
    var a := Skip(s, d, p, e);
    var b := Stop(s, d, a, e);
    SkipSpec(s, d, p, e);
    StopSpec(s, d, a, e);
    if m > 0 {
      SpansInOrder(s, d, b, e, m - 1, n - 1);
    } else {
      SpanStart(s, d, b, e, n - 1);
    }
  }

  lemma {:induction false} SpanStart(s: string, d: string, p: nat, e: nat, n: nat)
    requires p <= e <= |s| && n < |Spans(s, d, p, e)| && (p < e ==> s[p] in d)
    ensures p < Spans(s, d, p, e)[n].0
    decreases e - p
  {
    var a := Skip(s, d, p, e);
    SkipSpec(s, d, p, e);
    StopSpec(s, d, a, e);
    if n > 0 { SpanStart(s, d, Stop(s, d, a, e), e, n - 1); }
  }

  /** The tokens are the text of the spans. */
  lemma {:induction false} TokensAreSpans(s: string, d: string, p: nat, e: nat, n: nat)
    requires p <= e <= |s|
    ensures |TokensIn(s, d, p, e)| == |Spans(s, d, p, e)|
    ensures n < |Spans(s, d, p, e)| ==>
              var span := Spans(s, d, p, e)[n];
              span.0 < span.1 <= |s| && TokensIn(s, d, p, e)[n] == s[span.0..span.1]
    decreases e - p
  {
    var i := Skip(s, d, p, e);
    SkipSpec(s, d, p, e);
    StopSpec(s, d, i, e);
    if i < e {
      TokensAreSpans(s, d, Stop(s, d, i, e), e, if n > 0 then n - 1 else 0);
    }
  }

  /** A token is not empty. */
  lemma Progress(s: string, d: string, p: nat, e: nat)
    requires p <= e <= |s| && Skip(s, d, p, e) < e
    ensures Skip(s, d, p, e) < Stop(s, d, Skip(s, d, p, e), e)
  {
    SkipSpec(s, d, p, e);
    StopSpec(s, d, Skip(s, d, p, e), e);
  }

  // ----- Windows ----------------------------------------------------------------------------------

  /** t holds the same characters in p..e as s does, off places further on. */
  predicate Shifted(s: string, t: string, off: nat, p: nat, e: nat) {
    p <= e <= |t| && off + e <= |s| && forall x | p <= x < e :: s[off + x] == t[x]
  }

  lemma {:induction false} SearchShifted(s: string, t: string, d: string, off: nat, p: nat, e: nat)
    requires Shifted(s, t, off, p, e)
    ensures Skip(s, d, off + p, off + e) == off + Skip(t, d, p, e)
    ensures Stop(s, d, off + p, off + e) == off + Stop(t, d, p, e)
    decreases e - p
  {
    if p < e {
      assert s[off + p] == t[p];
      SearchShifted(s, t, d, off, p + 1, e);
    }
  }

  lemma SliceShifted(s: string, t: string, off: nat, i: nat, j: nat, e: nat)
    requires i <= j <= e && Shifted(s, t, off, i, e)
    ensures s[off + i..off + j] == t[i..j]
  {
    forall x | 0 <= x < j - i ensures s[off + i..off + j][x] == t[i..j][x] {
      assert s[off + (i + x)] == t[i + x];
    }
  }

  /** Tokens depend on nothing but the characters in the window. */
  lemma {:induction false} TokensShifted(s: string, t: string, d: string, off: nat, p: nat, e: nat)
    requires Shifted(s, t, off, p, e)
    ensures TokensIn(s, d, off + p, off + e) == TokensIn(t, d, p, e)
    decreases e - p
  {
    SearchShifted(s, t, d, off, p, e);
    var i := Skip(t, d, p, e);
    if i < e {
      SearchShifted(s, t, d, off, i, e);
      var j := Stop(t, d, i, e);
      SliceShifted(s, t, off, i, j, e);
      Progress(t, d, p, e);
      TokensShifted(s, t, d, off, j, e);
    }
  }

  lemma {:induction false} SearchSplit(s: string, d: string, p: nat, m: nat, e: nat)
    requires p <= m < e <= |s| && s[m] in d
    ensures var k := Skip(s, d, p, m);
            Skip(s, d, p, e) == if k < m then k else Skip(s, d, m + 1, e)
    ensures Stop(s, d, p, e) == Stop(s, d, p, m)
    decreases m - p
  {
    if p < m { SearchSplit(s, d, p + 1, m, e); }
  }

  /** A delimiter at m splits the window in two. */
  lemma {:induction false} TokensSplit(s: string, d: string, p: nat, m: nat, e: nat)
    requires p <= m < e <= |s| && s[m] in d
    ensures TokensIn(s, d, p, e) == TokensIn(s, d, p, m) + TokensIn(s, d, m + 1, e)
    decreases m - p
  {
    SearchSplit(s, d, p, m, e);
    var i := Skip(s, d, p, m);
    if i < m {
      SearchSplit(s, d, i, m, e);
      var j := Stop(s, d, i, m);
      Progress(s, d, p, m);
      TokensSplit(s, d, j, m, e);
      var token, left, right := [s[i..j]], TokensIn(s, d, j, m), TokensIn(s, d, m + 1, e);
      assert TokensIn(s, d, p, e) == token + (left + right);
      assert token + (left + right) == (token + left) + right;
    } else {
      assert TokensIn(s, d, p, m) == [];
    }
  }

  lemma TokensOfParts(s: string, a: string, b: string, d: string)
    requires |s| == |a| + 1 + |b| && s[|a|] in d
    requires Shifted(s, a, 0, 0, |a|) && Shifted(s, b, |a| + 1, 0, |b|)
    ensures Tokens(s, d) == Tokens(a, d) + Tokens(b, d)
  {
    TokensSplit(s, d, 0, |a|, |s|);
    TokensShifted(s, a, d, 0, 0, |a|);
    TokensShifted(s, b, d, |a| + 1, 0, |b|);
  }

  /** A delimiter anywhere splits the string into two independent parts. */
  lemma TokensOfJoin(a: string, x: char, b: string, d: string)
    requires x in d
    ensures Tokens(a + [x] + b, d) == Tokens(a, d) + Tokens(b, d)
  {
    TokensOfParts(a + [x] + b, a, b, d);
  }

  // ----- C strings in a buffer -----------------------------------------------------------------

  const NUL := "\0"

  /** Where the string at p ends. */
  function EndOf(w: seq<char>, p: nat): (e: nat)
    requires p <= |w|
    ensures p <= e <= |w|
  {
    Stop(w, NUL, p, |w|)
  }

  lemma EndOfSpec(w: seq<char>, p: nat)
    requires p <= |w|
    ensures var e := EndOf(w, p);
            (e < |w| ==> w[e] == '\0') && forall i | p <= i < e :: w[i] != '\0'
  {
    StopSpec(w, NUL, p, |w|);
  }

  predicate Terminated(w: seq<char>, p: nat) {
    p <= |w| && EndOf(w, p) < |w|
  }

  /** The string at p. */
  function Text(w: seq<char>, p: nat): string
    requires p <= |w|
  {
    w[p..EndOf(w, p)]
  }

  /** Its tokens. */
  function TokensAt(w: seq<char>, p: nat, d: string): seq<string>
    requires p <= |w|
  {
    TokensIn(w, d, p, EndOf(w, p))
  }

  lemma TokensAtText(w: seq<char>, p: nat, d: string)
    requires p <= |w|
    ensures TokensAt(w, p, d) == Tokens(Text(w, p), d)
  {
    TokensShifted(w, Text(w, p), d, p, 0, EndOf(w, p) - p);
  }

  /** w' is w with the delimiters from j up to k overwritten. */
  predicate Cut(w: seq<char>, w': seq<char>, d: string, j: nat, k: nat) {
    && |w'| == |w| && j <= k <= |w|
    && (forall x | j <= x < k :: w[x] in d && w'[x] == '\0')
    && (forall x | 0 <= x < |w| && !(j <= x < k) :: w'[x] == w[x])
  }

  /** Every character is as it was, or was a delimiter and is NUL now. */
  predicate OnlyDelims(w: seq<char>, w': seq<char>, d: string) {
    |w'| == |w| && forall x | 0 <= x < |w| :: w'[x] == w[x] || (w[x] in d && w'[x] == '\0')
  }

  lemma OnlyDelimsTrans(w: seq<char>, w1: seq<char>, w2: seq<char>, d: string)
    requires OnlyDelims(w, w1, d) && OnlyDelims(w1, w2, d) && '\0' !in d
    ensures OnlyDelims(w, w2, d)
  {
  }

  lemma YieldsOnlyDelims(w: seq<char>, p: nat, d: string, w': seq<char>, k: nat, r: int)
    requires p <= |w| && Yields(w, p, d, w', k, r)
    ensures OnlyDelims(w, w', d)
  {
  }

  lemma {:induction false} EndOfUnique(w: seq<char>, p: nat, e: nat)
    requires p <= e < |w| && w[e] == '\0' && forall x | p <= x < e :: w[x] != '\0'
    ensures EndOf(w, p) == e
    decreases e - p
  {
    if p < e { EndOfUnique(w, p + 1, e); }
  }

  lemma {:induction false} StopUnique(s: string, d: string, p: nat, k: nat, e: nat)
    requires p <= k <= e <= |s| && (k < e ==> s[k] in d) && forall x | p <= x < k :: s[x] !in d
    ensures Stop(s, d, p, e) == k
    decreases k - p
  {
    if p < k { StopUnique(s, d, p + 1, k, e); }
  }

  /** Delimiters in front of the window add no token. */
  lemma {:induction false} TokensAfterDelims(s: string, d: string, j: nat, k: nat, e: nat)
    requires j <= k <= e <= |s| && forall x | j <= x < k :: s[x] in d
    ensures TokensIn(s, d, j, e) == TokensIn(s, d, k, e)
    decreases k - j
  {
    if j < k {
      TokensAfterDelims(s, d, j + 1, k, e);
    }
  }

  /**
   What one call of strtok on the text of w at p promises: the first token (or NULL, here -1), a
   buffer w' and a place k whose remaining tokens are the others, and only delimiters overwritten.
   */
  predicate Yields(w: seq<char>, p: nat, d: string, w': seq<char>, k: nat, r: int)
    requires p <= |w|
  {
    var tokens := TokensAt(w, p, d);
    && |w'| == |w| && p <= k <= |w'|
    && (if tokens == [] then r == -1 && w' == w && TokensAt(w', k, d) == []
        else
          && p <= r <= |w'|
          && Text(w', r) == tokens[0] && TokensAt(w', k, d) == tokens[1..]
          && Cut(w, w', d, r + |tokens[0]|, k))
  }

  /** The scan from the first token's place i to its end j and on to the next token's place k. */
  lemma ScanYields(w: seq<char>, w': seq<char>, d: string, p: nat, i: nat, j: nat, k: nat, r: int)
    requires Terminated(w, p) && '\0' !in d && i == Skip(w, d, p, EndOf(w, p))
    requires i <= j <= k <= EndOf(w, p) && Cut(w, w', d, j, k)
    requires r == (if w[i] == '\0' then -1 else i) && (forall x | i <= x < j :: w[x] !in d)
    requires j == k ==> k == EndOf(w, p)
    ensures Yields(w, p, d, w', k, r) && Terminated(w', k)
  {
    var e := EndOf(w, p);
    EndOfSpec(w, p);
    EndOfUnique(w', k, e);
    if i == e {
      assert w' == w;
    } else {
      StopUnique(w, d, i, j, e);
      FirstTokenAt(w, d, p);
      EndOfUnique(w', i, j);
      SliceShifted(w', w, 0, i, j, j);
      CutRest(w, w', d, j, k, e);
    }
  }

  lemma FirstTokenAt(w: seq<char>, d: string, p: nat)
    requires p <= |w| && Skip(w, d, p, EndOf(w, p)) < EndOf(w, p)
    ensures var e := EndOf(w, p);
            var i := Skip(w, d, p, e);
            var j := Stop(w, d, i, e);
            var tokens := TokensAt(w, p, d);
            tokens != [] && tokens[0] == w[i..j] && |tokens[0]| == j - i && tokens[1..] == TokensIn(w, d, j, e)
  {
    var e := EndOf(w, p);
    var i := Skip(w, d, p, e);
    assert TokensIn(w, d, p, e) == [w[i..Stop(w, d, i, e)]] + TokensIn(w, d, Stop(w, d, i, e), e);
  }

  lemma CutRest(w: seq<char>, w': seq<char>, d: string, j: nat, k: nat, e: nat)
    requires k <= e <= |w| && Cut(w, w', d, j, k)
    ensures TokensIn(w', d, k, e) == TokensIn(w, d, j, e)
  {
    TokensAfterDelims(w, d, j, k, e);
    TokensShifted(w', w, d, 0, k, e);
  }

  // ----- The tokeniser -------------------------------------------------------------------------

  method Member(c: char, chars: string) returns (r: bool)
    ensures r <==> c in chars
  {
    for i := 0 to |chars|
      invariant c !in chars[..i]
    {
      if chars[i] == c {
        return true;
      }
    }
    return false;
  }

  /** The length of the leading run of accepted characters. */
  method Strspn(a: array<char>, p: nat, accept: string) returns (count: nat)
    requires Terminated(a[..], p) && '\0' !in accept
    ensures p + count == Skip(a[..], accept, p, EndOf(a[..], p))
  {
    ghost var e := EndOf(a[..], p);
    EndOfSpec(a[..], p);
    count := 0;
    while a[p + count] != '\0'
      invariant p + count <= e
      invariant Skip(a[..], accept, p + count, e) == Skip(a[..], accept, p, e)
      decreases e - count
    {
      var accepted := Member(a[p + count], accept);
      if !accepted {
        return;
      }
      count := count + 1;
    }
  }

  /**
   The main loop of `strtok`, entered at a place k0 that is no delimiter: passes over the token,
   overwrites the delimiters behind it, and stops at the next token or at the end.
   */
  method Scan(a: array<char>, k0: nat, delim: string) returns (ptr: int, k: nat, ghost j: nat)
    requires Terminated(a[..], k0) && '\0' !in delim && a[k0] !in delim
    modifies a
    ensures k0 <= j <= k <= EndOf(old(a[..]), k0) && Cut(old(a[..]), a[..], delim, j, k)
    ensures ptr == if old(a[k0]) == '\0' then -1 else k0
    ensures forall x | k0 <= x < j :: old(a[..])[x] !in delim
    ensures j == k ==> k == EndOf(old(a[..]), k0)
  {
    ghost var w := a[..];
    ghost var e := EndOf(w, k0);
    EndOfSpec(w, k0);
    ptr, k, j := -1, k0, k0;
    var first, found := true, false;
    while a[k] != '\0'
      invariant k0 <= j <= k <= e && Cut(w, a[..], delim, j, k)
      invariant first <==> k == k0
      invariant ptr == if first then -1 else k0
      invariant found <==> j < k
      invariant forall x | k0 <= x < j :: w[x] !in delim
      decreases e - k
    {
      assert a[k] == w[k] && k < e;
      var isDelim := Member(a[k], delim);
      if isDelim {
        a[k] := '\0';
        found := true;
      }
      if a[k] != '\0' && first {
        ptr := k;
        first := false;
      }
      if a[k] != '\0' && !first && found {
        return;
      }
      k := k + 1;
      if !found {
        j := k;
      }
    }
  }

  class Tokeniser {
    /** The static `old`: a buffer and a place in it. */
    var saved: array?<char>
    var at: nat

    constructor ()
      ensures saved == null
    {
      saved, at := null, 0;
    }

    /** A later call may continue with the saved pointer. */
    ghost predicate Resumable()
      reads this, saved
    {
      saved != null && Terminated(saved[..], at)
    }

    /**
     One call: the first token of the text, terminated in place, with the rest left for the next
     call; or NULL (here -1) when there is none. Only delimiters after the token are overwritten.
     */
    method Strtok(str: array?<char>, from: nat, delim: string) returns (r: int)
      requires '\0' !in delim
      requires str != null ==> Terminated(str[..], from)
      requires str == null ==> Resumable()
      modifies this, if str == null then saved else str
      ensures saved == if str == null then old(saved) else str
      ensures Resumable()
      ensures var p := if str == null then old(at) else from;
              var w := if str == null then old(saved[..]) else old(str[..]);
              Yields(w, p, delim, saved[..], at, r)
    {
      var a := if str == null then saved else str;
      var p := if str == null then at else from;
      ghost var w := a[..];
      var n := Strspn(a, p, delim);
      EndOfSpec(w, p);
      SkipSpec(w, delim, p, EndOf(w, p));
      EndOfUnique(w, p + n, EndOf(w, p));
      ghost var j;
      var k;
      r, k, j := Scan(a, p + n, delim);
      saved, at := a, k;
      ScanYields(w, a[..], delim, p, p + n, j, k, r);
    }

    /**
     Repeated calls give exactly the tokens in order, every one of any number of further calls gives
     NULL, and the only characters changed are delimiters, which become NUL.
     */
    method AllTokens(str: array<char>, delim: string, more: nat) returns (tokens: seq<string>, further: seq<int>)
      requires '\0' !in delim && Terminated(str[..], 0)
      modifies this, str
      ensures tokens == Tokens(Text(old(str[..]), 0), delim)
      ensures |further| == more && forall i | 0 <= i < more :: further[i] == -1
      ensures OnlyDelims(old(str[..]), str[..], delim)
    {
      TokensAtText(str[..], 0, delim);
      ghost var w, names := str[..], TokensAt(str[..], 0, delim);
      ghost var all := names;
      var r := Strtok(str, 0, delim);
      YieldsOnlyDelims(w, 0, delim, str[..], at, r);
      tokens := [];
      while r != -1
        invariant saved == str && Resumable() && OnlyDelims(w, str[..], delim)
        invariant tokens + names == all
        invariant if r == -1 then names == [] && TokensAt(str[..], at, delim) == []
                  else 0 <= r <= str.Length && names == [Text(str[..], r)] + TokensAt(str[..], at, delim)
        decreases |names|
      {
        tokens := tokens + [Text(str[..], r)];
        names := names[1..];
        ghost var w1, p := str[..], at;
        r := Strtok(null, 0, delim);
        YieldsOnlyDelims(w1, p, delim, str[..], at, r);
        OnlyDelimsTrans(w, w1, str[..], delim);
      }
      further := NullForever(delim, more);
    }

    /** Once the tokens are used up, every call gives NULL and changes nothing. */
    method NullForever(delim: string, n: nat) returns (results: seq<int>)
      requires '\0' !in delim && Resumable() && TokensAt(saved[..], at, delim) == []
      modifies this, saved
      ensures saved == old(saved) && Resumable() && saved[..] == old(saved[..])
      ensures |results| == n && forall i | 0 <= i < n :: results[i] == -1
    {
      results := [];
      while |results| < n
        invariant saved == old(saved) && Resumable() && saved[..] == old(saved[..])
        invariant TokensAt(saved[..], at, delim) == []
        invariant |results| <= n && forall i | 0 <= i < |results| :: results[i] == -1
      {
        var r := Strtok(null, 0, delim);
        results := results + [r];
      }
    }
  }
}
