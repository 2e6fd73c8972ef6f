/** kern/stdlib.c: strtok_r, which cuts a string up in place. */
module Strtok {

  import opened Options

  /** The end of the run of delimiters from i on. */
  function DelimEnd(s: string, delim: string, i: nat): (j: nat)
    requires i <= |s|
    ensures i <= j <= |s|
    ensures forall k :: i <= k < j ==> s[k] in delim
    ensures j < |s| ==> s[j] !in delim
    decreases |s| - i
  {
    if i < |s| && s[i] in delim then DelimEnd(s, delim, i + 1) else i
  }

  /** The end of the run of other characters from i on. */
  function TokenEnd(s: string, delim: string, i: nat): (j: nat)
    requires i <= |s|
    ensures i <= j <= |s|
    ensures forall k :: i <= k < j ==> s[k] !in delim
    ensures j < |s| ==> s[j] in delim
    decreases |s| - i
  {
    if i < |s| && s[i] !in delim then TokenEnd(s, delim, i + 1) else i
  }

  /** A token, as the range of the string that it covers. */
  datatype Span = Span(start: nat, end: nat)

  /** The tokens from i on, in order. */
  function Tokens(s: string, delim: string, i: nat): seq<Span>
    requires i <= |s|
    decreases |s| - i
  {
    var start := DelimEnd(s, delim, i);
    var end := TokenEnd(s, delim, start);
    if start == |s| then [] else [Span(start, end)] + Tokens(s, delim, end)
  }

  /** A maximal delimiter-free piece of the string. */
  ghost predicate IsToken(s: string, delim: string, t: Span) {
    && t.start < t.end <= |s|
    && (forall k :: t.start <= k < t.end ==> s[k] !in delim)
    && (t.start > 0 ==> s[t.start - 1] in delim)
    && (t.end < |s| ==> s[t.end] in delim)
  }

  /** The first span from i on is a maximal piece. */
  lemma FirstToken(s: string, delim: string, i: nat)
    requires i <= |s| && (0 < i < |s| && s[i] !in delim ==> s[i - 1] in delim)
    requires DelimEnd(s, delim, i) < |s|
    ensures var start := DelimEnd(s, delim, i);
            IsToken(s, delim, Span(start, TokenEnd(s, delim, start)))
  {
    var start := DelimEnd(s, delim, i);
    if start > i {
      assert s[start - 1] in delim;
    }
  }

  /** The spans from i on are maximal pieces, in order and apart. */
  ghost predicate InOrder(s: string, delim: string, i: nat, ts: seq<Span>) {
    && (forall k :: 0 <= k < |ts| ==> IsToken(s, delim, ts[k]) && ts[k].start >= i)
    && (forall j, k :: 0 <= j < k < |ts| ==> ts[j].end < ts[k].start)
  }

  lemma {:induction false} TokensAreTokens(s: string, delim: string, i: nat)
    requires i <= |s| && (0 < i < |s| && s[i] !in delim ==> s[i - 1] in delim)
    ensures InOrder(s, delim, i, Tokens(s, delim, i))
    decreases |s| - i
  {
    var start := DelimEnd(s, delim, i);
    var end := TokenEnd(s, delim, start);
    if start < |s| {
      FirstToken(s, delim, i);
      TokensAreTokens(s, delim, end);
      ConsInOrder(s, delim, i, Span(start, end), Tokens(s, delim, end));
    }
  }

  lemma ConsInOrder(s: string, delim: string, i: nat, t: Span, rest: seq<Span>)
    requires IsToken(s, delim, t) && i <= t.start && InOrder(s, delim, t.end, rest)
    ensures InOrder(s, delim, i, [t] + rest)
  {
    forall k | 0 <= k < |rest|
      ensures rest[k].start > t.end
    {
      assert IsToken(s, delim, rest[k]) && s[rest[k].start] !in delim;
    }
  }

  /** No maximal piece is missed. */
  lemma {:induction false} TokensComplete(s: string, delim: string, i: nat, t: Span)
    requires i <= |s| && (0 < i < |s| && s[i] !in delim ==> s[i - 1] in delim)
    requires IsToken(s, delim, t) && t.start >= i
    ensures t in Tokens(s, delim, i)
    decreases |s| - i
  {
    var start := DelimEnd(s, delim, i);
    var end := TokenEnd(s, delim, start);
    assert s[t.start] !in delim;
    FirstToken(s, delim, i);
    if t.start < end {
      SameToken(s, delim, t, Span(start, end));
    } else {
      TokensComplete(s, delim, end, t);
    }
  }

  /** The tokens of a string are exactly its maximal delimiter-free pieces (C99,
      7.21.5.8), in order. */
  lemma TokensExact(s: string, delim: string)
    ensures forall t :: IsToken(s, delim, t) <==> t in Tokens(s, delim, 0)
    ensures var ts := Tokens(s, delim, 0); forall j, k :: 0 <= j < k < |ts| ==> ts[j].end < ts[k].start
  {
    TokensAreTokens(s, delim, 0);
    forall t | IsToken(s, delim, t)
      ensures t in Tokens(s, delim, 0)
    {
      TokensComplete(s, delim, 0, t);
    }
  }

  /** Two maximal pieces that meet are the same. */
  lemma SameToken(s: string, delim: string, t: Span, u: Span)
    requires IsToken(s, delim, t) && IsToken(s, delim, u) && u.start <= t.start < u.end
    ensures t == u
  {
  }

  /** buf holds the string s from p to its terminator at end. */
  ghost predicate HoldsFrom(buf: seq<char>, s: string, p: nat, end: nat) {
    && p <= end == |s| < |buf| && buf[end] == '\0'
    && forall k :: p <= k < end ==> buf[k] == s[k] != '\0'
  }

  /** strtok_r, on a buffer whose unread part is s from str, or from the saved
      position, to its end. */
  method StrtokR(buf: array<char>, str: Option<nat>, delim: string, saved: Option<nat>, ghost s: string)
    returns (token: Option<nat>, saved': Option<nat>)
    requires '\0' !in delim
    requires str.Some? ==> HoldsFrom(buf[..], s, str.value, |s|)
    requires str.None? && saved.Some? ==> HoldsFrom(buf[..], s, saved.value, |s|)
    modifies buf
    ensures str.None? && saved.None? ==> token == None && saved' == None && buf[..] == old(buf[..])
    ensures str.Some? || saved.Some? ==>
              var p := if str.Some? then str.value else saved.value;
              var start := DelimEnd(s, delim, p);
              var end := TokenEnd(s, delim, start);
              if start == |s| then
                token == None && saved' == Some(|s|) && buf[..] == old(buf[..])
              else
                && token == Some(start)
                && saved' == Some(if end < |s| then end + 1 else end)
                && buf[..] == if end < |s| then old(buf[..])[end := '\0'] else old(buf[..])
  {
    if str.None? && saved.None? {
      return None, None;
    }
    var cur := if str.Some? then str.value else saved.value;
    ghost var first := cur;
    var p := 0;
    while p < |delim| && buf[cur] != '\0'
      invariant first <= cur <= |s| && 0 <= p <= |delim|
      invariant DelimEnd(s, delim, cur) == DelimEnd(s, delim, first)
      invariant buf[cur] !in delim[..p]
      decreases |s| - cur, |delim| - p
    {
      if buf[cur] == delim[p] {
        assert s[cur] in delim;
        cur := cur + 1;
        p := 0;
        continue;
      }
      p := p + 1;
    }
    if buf[cur] == '\0' {
      return None, Some(cur);
    }
    assert delim[..|delim|] == delim;
    token := Some(cur);
    var save := cur;
    while buf[save] != '\0'
      invariant cur <= save <= |s| && buf[..] == old(buf[..])
      invariant TokenEnd(s, delim, save) == TokenEnd(s, delim, cur)
      decreases |s| - save
    {
      p := 0;
      while p < |delim|
        invariant 0 <= p <= |delim| && buf[..] == old(buf[..]) && buf[save] !in delim[..p]
      {
        if buf[save] == delim[p] {
          assert s[save] in delim;
          buf[save] := '\0';
          return token, Some(save + 1);
        }
        p := p + 1;
      }
      save := save + 1;
    }
    return token, Some(save);
  }

  /** The string at p in the buffer, up to its first NUL. */
  method ReadString(buf: array<char>, p: nat, ghost end: nat) returns (t: string)
    requires p <= end < buf.Length && buf[end] == '\0'
    requires forall k :: p <= k < end ==> buf[..][k] != '\0'
    ensures t == buf[..][p..end]
  {
    var e := p;
    while buf[e] != '\0'
      invariant p <= e <= end
      decreases end - e
    {
      e := e + 1;
    }
    t := buf[p..e];
  }

  /** Only delimiters have become NULs. */
  twostate predicate OnlyCut(buf: array<char>, delim: string, s: string)
    reads buf
  {
    forall k :: 0 <= k < buf.Length ==>
      buf[k] == old(buf[k]) || (k < |s| && s[k] in delim && buf[k] == '\0')
  }

  /** One call, and the string it points to. */
  method CallOnce(buf: array<char>, str: Option<nat>, delim: string, saved: Option<nat>, ghost s: string, ghost at: nat)
    returns (token: Option<string>, saved': nat)
    requires '\0' !in delim && HoldsFrom(buf[..], s, at, |s|)
    requires str == Some(at) || (str == None && saved == Some(at))
    modifies buf
    ensures OnlyCut(buf, delim, s)
    ensures at <= saved' && HoldsFrom(buf[..], s, saved', |s|)
    ensures var ts := Tokens(s, delim, at);
            if ts == [] then token == None else
              && ts[0].start <= ts[0].end <= |s| && at < saved'
              && token == Some(s[ts[0].start..ts[0].end]) && ts[1..] == Tokens(s, delim, saved')
  {
    NextToken(s, delim, at);
    hide Tokens;
    ghost var start := DelimEnd(s, delim, at);
    ghost var end := TokenEnd(s, delim, start);
    ghost var was := buf[..];
    assert at <= start <= end <= |s| && (end < |s| ==> s[end] in delim);
    assert |s| < buf.Length;
    hide DelimEnd, TokenEnd, HoldsFrom;
    var t, sv := StrtokR(buf, str, delim, saved, s);
    assert OnlyCut(buf, delim, s);
    hide OnlyCut;
    saved' := sv.value;
    if t == None {
      AllRead(was, s, at);
      return None, saved';
    }
    PieceHeld(was, buf[..], s, at, start, end);
    var text := ReadString(buf, t.value, end);
    token := Some(text);
  }

  lemma AllRead(buf: seq<char>, s: string, at: nat)
    requires HoldsFrom(buf, s, at, |s|)
    ensures HoldsFrom(buf, s, |s|, |s|)
  {
  }

  /** A token behind a NUL of its own, and what is held after it. */
  lemma PieceHeld(was: seq<char>, now: seq<char>, s: string, at: nat, start: nat, end: nat)
    requires HoldsFrom(was, s, at, |s|) && at <= start <= end <= |s|
    requires now == if end < |s| then was[end := '\0'] else was
    ensures end < |now| && now[end] == '\0' && now[start..end] == s[start..end]
    ensures forall k :: start <= k < end ==> now[k] != '\0'
    ensures HoldsFrom(now, s, if end < |s| then end + 1 else end, |s|)
  {
  }

  /** Calling strtok_r until it returns NULL yields the tokens of the string, and
      turns nothing but delimiters into NULs. */
  method TokenizeAll(buf: array<char>, delim: string, ghost s: string) returns (tokens: seq<string>)
    requires '\0' !in delim && HoldsFrom(buf[..], s, 0, |s|)
    modifies buf
    ensures Spells(s, Tokens(s, delim, 0), tokens)
    ensures OnlyCut(buf, delim, s)
  {
    tokens := [];
    ghost var all := Tokens(s, delim, 0);
    assert Spells(s, all[..0], tokens);
    var str, saved: Option<nat> := Some(0), None;
    ghost var at := 0;
    hide Tokens, Spells;
    while true
      invariant at <= |s| && HoldsFrom(buf[..], s, at, |s|)
      invariant str == Some(at) || (str == None && saved == Some(at))
      invariant |tokens| <= |all| && Spells(s, all[..|tokens|], tokens)
      invariant all[|tokens|..] == Tokens(s, delim, at)
      invariant OnlyCut(buf, delim, s)
      decreases |s| - at, if str.Some? then 1 else 0
    {
      var token, next := CallOnce(buf, str, delim, saved, s, at);
      if token == None {
        break;
      }
      str, saved, at := None, Some(next), next;
      SpellsNext(s, all, tokens, token.value);
      tokens := tokens + [token.value];
    }
    assert all[..|tokens|] == all;
  }

  /** The strings that the spans cut out. */
  ghost predicate Spells(s: string, ts: seq<Span>, strings: seq<string>) {
    |ts| == |strings| && forall k :: 0 <= k < |ts| ==>
      ts[k].start <= ts[k].end <= |s| && strings[k] == s[ts[k].start..ts[k].end]
  }

  lemma SpellsNext(s: string, all: seq<Span>, strings: seq<string>, t: string)
    requires |strings| < |all| && Spells(s, all[..|strings|], strings)
    requires var u := all[|strings|..][0]; u.start <= u.end <= |s| && t == s[u.start..u.end]
    ensures Spells(s, all[..|strings| + 1], strings + [t])
    ensures all[|strings|..][1..] == all[|strings| + 1..]
  {
    assert all[..|strings| + 1] == all[..|strings|] + [all[|strings|]];
  }

  /** The tokens from one saved position, and from the next. */
  lemma NextToken(s: string, delim: string, at: nat)
    requires at <= |s|
    ensures var start := DelimEnd(s, delim, at);
            var end := TokenEnd(s, delim, start);
            if start == |s| then Tokens(s, delim, at) == []
            else Tokens(s, delim, at) == [Span(start, end)] + Tokens(s, delim, if end < |s| then end + 1 else end)
  {
  }
}
