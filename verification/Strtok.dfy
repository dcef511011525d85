/** src/string.c: strtok and the scans it is made of. A pointer is an index into memory, NULL is -1. */
module StrtokModel {
  const NUL := '\0'
  const NULL := -1

  /** The string at p, whose NUL is at e. */
  predicate IsString(mem: seq<char>, p: nat, e: nat) {
    p <= e < |mem| && mem[e] == NUL && forall i :: p <= i < e ==> mem[i] != NUL
  }

  /** The first place from p on, up to e, where membership in delim is not `inside`. */
  function Span(mem: seq<char>, p: nat, e: nat, delim: string, inside: bool): (q: nat)
    requires p <= e <= |mem|
    ensures p <= q <= e
    decreases e - p
  {
    if p == e || (mem[p] in delim) != inside then p else Span(mem, p + 1, e, delim, inside)
  }

  lemma {:induction false} SpanIs(mem: seq<char>, p: nat, e: nat, delim: string, inside: bool)
    requires p <= e <= |mem|
    ensures var q := Span(mem, p, e, delim, inside);
      (forall i :: p <= i < q ==> (mem[i] in delim) == inside) && (q < e ==> (mem[q] in delim) != inside)
    decreases e - p
  {
    if p < e && (mem[p] in delim) == inside {
      SpanIs(mem, p + 1, e, delim, inside);
    }
  }

  /** A token, from its first character to the one after its last. */
  datatype Token = Token(start: nat, end: nat)

  /** The token a call that looks from p on finds; empty when there is none. */
  function First(mem: seq<char>, p: nat, e: nat, delim: string): (t: Token)
    requires p <= e <= |mem|
    ensures p <= t.start <= t.end <= e
  {
    var a := Span(mem, p, e, delim, true);
    Token(a, Span(mem, a, e, delim, false))
  }

  /** The tokens strtok is to return, one a call. */
  function Tokens(mem: seq<char>, p: nat, e: nat, delim: string): (l: seq<Token>)
    requires p <= e <= |mem|
    decreases e - p
  {
    var t := First(mem, p, e, delim);
    if t.start == t.end then [] else [t] + if t.end == e then [] else Tokens(mem, t.end + 1, e, delim)
  }

  /** t is a maximal run of characters that are not in delim. */
  predicate MaximalRun(mem: seq<char>, p: nat, e: nat, delim: string, t: Token)
    requires p <= e <= |mem|
  {
    && p <= t.start < t.end <= e
    && (forall i :: t.start <= i < t.end ==> mem[i] !in delim)
    && (t.start == p || mem[t.start - 1] in delim)
    && (t.end == e || mem[t.end] in delim)
  }

  /** The tokens are exactly the maximal delimiter-free runs. */
  lemma {:induction false} TokensAreRuns(mem: seq<char>, p: nat, e: nat, delim: string, t: Token)
    requires p <= e <= |mem|
    ensures t in Tokens(mem, p, e, delim) <==> MaximalRun(mem, p, e, delim, t)
    decreases e - p
  {
    var f := First(mem, p, e, delim);
    if f.start == f.end {
      NoRun(mem, p, e, delim, t);
    } else if f.end == e {
      FirstIsRun(mem, p, e, delim, t);
    } else {
      assert Tokens(mem, p, e, delim) == [f] + Tokens(mem, f.end + 1, e, delim);
      TokensAreRuns(mem, f.end + 1, e, delim, t);
      RunOrLater(mem, p, e, delim, t);
    }
  }

  /** Only delimiters are left. */
  lemma NoRun(mem: seq<char>, p: nat, e: nat, delim: string, t: Token)
    requires p <= e <= |mem| && First(mem, p, e, delim).start == First(mem, p, e, delim).end
    ensures !MaximalRun(mem, p, e, delim, t)
  {
    var a := First(mem, p, e, delim).start;
    SpanIs(mem, p, e, delim, true);
    SpanIs(mem, a, e, delim, false);
    assert p <= t.start < e ==> mem[t.start] in delim;
  }

  /** Only the first token is left. */
  lemma FirstIsRun(mem: seq<char>, p: nat, e: nat, delim: string, t: Token)
    requires p <= e <= |mem| && First(mem, p, e, delim).start < First(mem, p, e, delim).end == e
    ensures MaximalRun(mem, p, e, delim, t) <==> t == First(mem, p, e, delim)
  {
    var f := First(mem, p, e, delim);
    SpanIs(mem, p, e, delim, true);
    SpanIs(mem, f.start, e, delim, false);
    if t.start < f.end {
      RunStart(mem, p, e, delim, f, t);
    }
  }

  /** A run is the first token or one of what follows the delimiter behind it. */
  lemma RunOrLater(mem: seq<char>, p: nat, e: nat, delim: string, t: Token)
    requires p <= e <= |mem| && First(mem, p, e, delim).start < First(mem, p, e, delim).end < e
    ensures var f := First(mem, p, e, delim);
      MaximalRun(mem, p, e, delim, t) <==> t == f || MaximalRun(mem, f.end + 1, e, delim, t)
  {
    var f := First(mem, p, e, delim);
    SpanIs(mem, p, e, delim, true);
    SpanIs(mem, f.start, e, delim, false);
    if t.start < f.end {
      RunStart(mem, p, e, delim, f, t);
    } else {
      RunBeyond(mem, p, e, delim, t);
    }
  }

  /** A run that starts past the first token is one of what follows the delimiter there. */
  lemma RunBeyond(mem: seq<char>, p: nat, e: nat, delim: string, t: Token)
    requires p <= e <= |mem|
    requires First(mem, p, e, delim).start < First(mem, p, e, delim).end <= t.start
    ensures var d := First(mem, p, e, delim).end;
      MaximalRun(mem, p, e, delim, t) <==> d < e && MaximalRun(mem, d + 1, e, delim, t)
  {
    var f := First(mem, p, e, delim);
    SpanIs(mem, f.start, e, delim, false);
    assert t.start == f.end < e ==> mem[t.start] in delim;
  }

  /** A run that starts before the end of the first token is the first token. */
  lemma RunStart(mem: seq<char>, p: nat, e: nat, delim: string, f: Token, t: Token)
    requires p <= f.start < f.end <= e <= |mem| && t.start < f.end
    requires forall i :: p <= i < f.start ==> mem[i] in delim
    requires forall i :: f.start <= i < f.end ==> mem[i] !in delim
    requires f.end < e ==> mem[f.end] in delim
    ensures MaximalRun(mem, p, e, delim, t) <==> t == f
  {
    assert p <= t.start < f.start ==> mem[t.start] in delim;
    assert f.start < t.start ==> mem[t.start - 1] !in delim;
    assert f.start > p ==> mem[f.start - 1] in delim;
  }

  lemma {:induction false} TokensOnward(mem: seq<char>, p: nat, e: nat, delim: string, t: Token)
    requires p <= e <= |mem|
    ensures t in Tokens(mem, p, e, delim) ==> p <= t.start < t.end <= e
    decreases e - p
  {
    var f := First(mem, p, e, delim);
    if f.start < f.end < e {
      TokensOnward(mem, f.end + 1, e, delim, t);
    }
  }

  /** Tokens come in order, with a delimiter between. */
  lemma {:induction false} TokensInOrder(mem: seq<char>, p: nat, e: nat, delim: string, i: nat, j: nat)
    requires p <= e <= |mem| && i < j < |Tokens(mem, p, e, delim)|
    ensures Tokens(mem, p, e, delim)[i].end < Tokens(mem, p, e, delim)[j].start
    decreases e - p
  {
    var f := First(mem, p, e, delim);
    var rest := Tokens(mem, f.end + 1, e, delim);
    assert Tokens(mem, p, e, delim) == [f] + rest;
    if i > 0 {
      TokensInOrder(mem, f.end + 1, e, delim, i - 1, j - 1);
    } else {
      TokensOnward(mem, f.end + 1, e, delim, rest[j - 1]);
    }
  }

  // ----- what strtok leaves in memory

  /** A NUL after each token. */
  function Cut(mem: seq<char>, l: seq<Token>): (r: seq<char>)
    requires forall t :: t in l ==> t.end < |mem|
    ensures |r| == |mem|
    decreases l
  {
    if l == [] then mem else Cut(mem, l[..|l| - 1])[l[|l| - 1].end := NUL]
  }

  /** Only the character after each token changes. */
  lemma {:induction false} CutAt(mem: seq<char>, l: seq<Token>, i: nat)
    requires i < |mem| && forall t :: t in l ==> t.end < |mem|
    ensures Cut(mem, l)[i] == if exists t :: t in l && t.end == i then NUL else mem[i]
    decreases l
  {
    if l != [] {
      var last, before := l[|l| - 1], l[..|l| - 1];
      CutAt(mem, before, i);
      assert l == before + [last];
    }
  }

  lemma CutStep(mem: seq<char>, l: seq<Token>, t: Token)
    requires t.end < |mem| && forall u :: u in l ==> u.end < |mem|
    ensures (forall u :: u in l + [t] ==> u.end < |mem|) && Cut(mem, l + [t]) == Cut(mem, l)[t.end := NUL]
  {
    assert (l + [t])[..|l|] == l;
  }

  /** The scans depend only on the memory they look at. */
  lemma {:induction false} SpanFrame(mem: seq<char>, r: seq<char>, p: nat, e: nat, delim: string, inside: bool)
    requires p <= e <= |mem| == |r| && forall i :: p <= i < e ==> r[i] == mem[i]
    ensures Span(r, p, e, delim, inside) == Span(mem, p, e, delim, inside)
    decreases e - p
  {
    if p < e {
      SpanFrame(mem, r, p + 1, e, delim, inside);
    }
  }

  // ----- calls one after another

  /** What a call of strtok that looks from p on returns and leaves. */
  ghost predicate Called(mem: seq<char>, p: int, e: nat, delim: string, token: int, r: seq<char>, q: int)
    requires e < |mem| && (p == NULL || 0 <= p <= e)
  {
    if p == NULL then token == NULL && q == NULL && r == mem
    else
      var f := First(mem, p, e, delim);
      if f.start == f.end then token == NULL && q == NULL && r == mem
      else token == f.start && r == mem[f.end := NUL] && q == if f.end == e then NULL else f.end + 1
  }

  ghost predicate EndBefore(l: seq<Token>, p: int) {
    forall t :: t in l ==> t.end < p
  }

  /** Of all tokens of the string in `was`, those in `done` have been returned; p is the static
      pointer and mem the memory since. */
  ghost predicate Progress(was: seq<char>, e: nat, delim: string, all: seq<Token>, done: seq<Token>, mem: seq<char>,
                           p: int) {
    && e < |was| && EndBefore(done, |was|) && mem == Cut(was, done)
    && if p == NULL then done == all
       else 0 <= p <= e && EndBefore(done, p) && done + Tokens(was, p, e, delim) == all
  }

  lemma FirstFrame(was: seq<char>, e: nat, delim: string, all: seq<Token>, done: seq<Token>, mem: seq<char>, p: nat)
    requires Progress(was, e, delim, all, done, mem, p)
    ensures First(mem, p, e, delim) == First(was, p, e, delim)
  {
    forall i | p <= i < e
      ensures mem[i] == was[i]
    {
      CutAt(was, done, i);
    }
    SpanFrame(was, mem, p, e, delim, true);
    SpanFrame(was, mem, First(was, p, e, delim).start, e, delim, false);
  }

  /** After `done`, the token just returned is the next one, or NULL when there is none. */
  ghost predicate Returned(was: seq<char>, e: nat, delim: string, all: seq<Token>, done: seq<Token>, token: int,
                           mem: seq<char>, p: int) {
    if |done| >= |all| then done == all && token == NULL && p == NULL && Progress(was, e, delim, all, done, mem, p)
    else token == all[|done|].start && Progress(was, e, delim, all, done + [all[|done|]], mem, p)
  }

  lemma CallProgress(was: seq<char>, e: nat, delim: string, all: seq<Token>, done: seq<Token>, mem: seq<char>, p: int,
                     token: int, r: seq<char>, q: int)
    requires Progress(was, e, delim, all, done, mem, p) && Called(mem, p, e, delim, token, r, q)
    ensures Returned(was, e, delim, all, done, token, r, q)
  {
    if p != NULL {
      FirstFrame(was, e, delim, all, done, mem, p);
      var f := First(was, p, e, delim);
      if f.start == f.end {
        NoneLeft(was, e, delim, all, done, mem, p);
      } else {
        OneMore(was, e, delim, all, done, mem, p, f);
      }
    }
  }

  lemma NoneLeft(was: seq<char>, e: nat, delim: string, all: seq<Token>, done: seq<Token>, mem: seq<char>, p: nat)
    requires Progress(was, e, delim, all, done, mem, p)
    requires First(was, p, e, delim).start == First(was, p, e, delim).end
    ensures done == all && Progress(was, e, delim, all, done, mem, NULL)
  {
    assert Tokens(was, p, e, delim) == [];
  }

  lemma OneMore(was: seq<char>, e: nat, delim: string, all: seq<Token>, done: seq<Token>, mem: seq<char>, p: nat,
                f: Token)
    requires Progress(was, e, delim, all, done, mem, p) && f == First(was, p, e, delim) && f.start < f.end
    ensures |done| < |all| && all[|done|] == f
    ensures var next := if f.end == e then NULL else f.end + 1;
      Progress(was, e, delim, all, done + [f], mem[f.end := NUL], next)
  {
    var more := if f.end == e then [] else Tokens(was, f.end + 1, e, delim);
    Regroup(done, f, more);
    CutStep(was, done, f);
  }

  lemma Regroup(done: seq<Token>, f: Token, rest: seq<Token>)
    ensures done + ([f] + rest) == done + [f] + rest
    ensures (done + ([f] + rest))[|done|] == f
  {
  }
}

module Strtok {
  import opened StrtokModel

  /** *s for a string that is not in the memory strtok writes to. */
  function CharAt(s: string, i: nat): char
    requires i <= |s|
  {
    if i < |s| then s[i] else NUL
  }

  /** strchr; the NUL at the end is found too. */
  method Strchr(s: string, c: char) returns (at: int)
    requires NUL !in s
    ensures at == NULL <==> c !in s && c != NUL
    ensures at != NULL ==> 0 <= at <= |s| && CharAt(s, at) == c && c !in s[..at]
  {
    at := 0;
    while CharAt(s, at) != c
      invariant 0 <= at <= |s| && c !in s[..at]
      decreases |s| - at
    {
      if CharAt(s, at) == NUL {
        return NULL;
      }
      at := at + 1;
    }
  }

  class Tokenizer {
    const mem: array<char>
    /** strtok's static pointer. */
    var p: int

    constructor (contents: seq<char>)
      ensures mem[..] == contents && p == NULL && fresh(mem)
    {
      p := NULL;
      mem := new char[|contents|](i requires 0 <= i < |contents| => contents[i]);
      new;
      assert mem[..] == contents;
    }

    method Strspn(s1: nat, s2: string, ghost e: nat) returns (ret: nat)
      requires IsString(mem[..], s1, e) && NUL !in s2
      ensures s1 + ret == Span(mem[..], s1, e, s2, true)
    {
      ret := 0;
      while true
        invariant s1 + ret <= e && Span(mem[..], s1 + ret, e, s2, true) == Span(mem[..], s1, e, s2, true)
        decreases e - s1 - ret
      {
        if mem[s1 + ret] == NUL {
          break;
        }
        var found := Strchr(s2, mem[s1 + ret]);
        if found == NULL {
          break;
        }
        ret := ret + 1;
      }
    }

    method Strcspn(s1: nat, s2: string, ghost e: nat) returns (ret: nat)
      requires IsString(mem[..], s1, e) && NUL !in s2
      ensures s1 + ret == Span(mem[..], s1, e, s2, false)
    {
      ret := 0;
      while mem[s1 + ret] != NUL
        invariant s1 + ret <= e && Span(mem[..], s1 + ret, e, s2, false) == Span(mem[..], s1, e, s2, false)
        decreases e - s1 - ret
      {
        var found := Strchr(s2, mem[s1 + ret]);
        if found != NULL {
          return;
        }
        ret := ret + 1;
      }
    }

    /** Where a call starts to look. */
    ghost function From(str: int): int
      reads this
    {
      if str != NULL then str else p
    }

    /** strtok on a string whose NUL is at e. */
    method Strtok(str: int, delim: string, ghost e: nat) returns (token: int)
      requires NUL !in delim && e < mem.Length
      requires From(str) == NULL || (0 <= From(str) && IsString(mem[..], From(str), e))
      modifies this, mem
      ensures Called(old(mem[..]), old(From(str)), e, delim, token, mem[..], p)
    {
      if str != NULL {
        p := str;
      } else if p == NULL {
        return NULL;
      }
      var n := Strspn(p, delim, e);
      var s := p + n;
      n := Strcspn(s, delim, e);
      p := s + n;
      if p == s {
        p := NULL;
        return NULL;
      }
      if mem[p] != NUL {
        mem[p] := NUL;
        p := p + 1;
      } else {
        p := NULL;
      }
      return s;
    }

    /** strtok on the string, then on NULL until it returns NULL. */
    method AllTokens(str: nat, delim: string, ghost e: nat) returns (starts: seq<int>)
      requires NUL !in delim && IsString(mem[..], str, e)
      modifies this, mem
      ensures p == NULL
      ensures var l := Tokens(old(mem[..]), str, e, delim);
        && Starts(starts, l)
        && EndBefore(l, mem.Length) && mem[..] == Cut(old(mem[..]), l)
    {
      ghost var was, all := mem[..], Tokens(mem[..], str, e, delim);
      ghost var done: seq<Token> := [];
      starts := [];
      var token := FirstToken(delim, e, all, str);
      while token != NULL
        invariant Starts(starts, done)
        invariant Returned(was, e, delim, all, done, token, mem[..], p) && (p == NULL || str <= p)
        decreases |all| - |done|
      {
        starts := starts + [token];
        ghost var next;
        token, next := NextToken(was, e, delim, all, done, str, token);
        done := done + [next];
      }
      NoneReturned(was, e, delim, all, done, mem[..], p);
    }

    /** The call with the string. */
    method FirstToken(delim: string, ghost e: nat, ghost all: seq<Token>, str: nat) returns (token: int)
      requires NUL !in delim && IsString(mem[..], str, e) && all == Tokens(mem[..], str, e, delim)
      modifies this, mem
      ensures Returned(old(mem[..]), e, delim, all, [], token, mem[..], p) && (p == NULL || str <= p)
    {
      ghost var was := mem[..];
      token := Strtok(str, delim, e);
      CallProgress(was, e, delim, all, [], was, str, token, mem[..], p);
    }

    /** One more call, strtok(NULL), after a token `prev` was returned. */
    method NextToken(ghost was: seq<char>, ghost e: nat, delim: string, ghost all: seq<Token>, ghost done: seq<Token>,
                     ghost str: nat, ghost prev: int) returns (token: int, ghost t: Token)
      requires NUL !in delim && IsString(was, str, e) && (p == NULL || str <= p)
      requires Returned(was, e, delim, all, done, prev, mem[..], p) && prev != NULL
      modifies this, mem
      ensures t.start == prev && |done| < |all|
      ensures Returned(was, e, delim, all, done + [t], token, mem[..], p) && (p == NULL || str <= p)
    {
      t := all[|done|];
      KeepsString(was, e, delim, all, done + [t], mem[..], p, str);
      token := Strtok(NULL, delim, e);
      CallProgress(was, e, delim, all, done + [t], old(mem[..]), old(p), token, mem[..], p);
    }
  }

  /** The pointers returned are the starts of the tokens. */
  predicate Starts(starts: seq<int>, l: seq<Token>) {
    |starts| == |l| && forall i :: 0 <= i < |l| ==> starts[i] == l[i].start
  }

  /** After the call that returns NULL. */
  lemma NoneReturned(was: seq<char>, e: nat, delim: string, all: seq<Token>, done: seq<Token>, mem: seq<char>, p: int)
    requires Returned(was, e, delim, all, done, NULL, mem, p)
    ensures p == NULL && done == all && EndBefore(all, |was|) && mem == Cut(was, all)
  {
  }

  lemma KeepsString(was: seq<char>, e: nat, delim: string, all: seq<Token>, done: seq<Token>, mem: seq<char>, p: int,
                    str: nat)
    requires Progress(was, e, delim, all, done, mem, p) && IsString(was, str, e)
    requires p != NULL ==> str <= p
    ensures p != NULL ==> IsString(mem, p, e)
  {
    if p != NULL {
      forall i | p <= i <= e
        ensures mem[i] == was[i]
      {
        CutAt(was, done, i);
      }
    }
  }
}
