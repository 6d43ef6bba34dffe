/** The quoted-token codec of the wire protocol (tcp.c): tokens joined by single spaces, written by
    tcpquotedcopy and taken apart again, in place, by tcpnextdata. */
module TcpQuote {
  import opened Bytes

  const BACKSLASH: byte := 92
  const QUOTE: byte := 34

  predicate Special(c: byte) {
    c == BACKSLASH || c == QUOTE
  }

  // --- what the two sides mean -----------------------------------------------------------------------

  /** The quoted form of the rest of a token; `open` says that a quotation mark has been written. */
  function Body(src: seq<byte>, open: bool): seq<byte> {
    if src == [] then (if open then [QUOTE] else [])
    else if Special(src[0]) then [BACKSLASH, src[0]] + Body(src[1..], open)
    else if src[0] == BLANK && !open then [QUOTE, BLANK] + Body(src[1..], true)
    else [src[0]] + Body(src[1..], open)
  }

  /** The quoted form of a token. */
  function Quoted(src: seq<byte>): seq<byte> {
    if src == [] then [QUOTE, QUOTE] else Body(src, false)
  }

  /** The text that a reader extracts from s, up to an unquoted blank or the end, and how many
      bytes it uses, including that blank. */
  function Scan(s: seq<byte>, open: bool): (r: (seq<byte>, nat))
    ensures r.1 <= |s| && |r.0| <= r.1
    decreases |s|
  {
    if s == [] then ([], 0)
    else if s[0] == BACKSLASH then
      if |s| == 1 then ([], 1)
      else
        var r := Scan(s[2..], open);
        ([s[1]] + r.0, 2 + r.1)
    else if s[0] == BLANK && !open then ([], 1)
    else if s[0] == QUOTE then
      var r := Scan(s[1..], !open);
      (r.0, 1 + r.1)
    else
      var r := Scan(s[1..], open);
      ([s[0]] + r.0, 1 + r.1)
  }

  /** A list of tokens on the wire. */
  function Joined(tokens: seq<seq<byte>>): seq<byte> {
    if tokens == [] then []
    else if |tokens| == 1 then Quoted(tokens[0])
    else Quoted(tokens[0]) + [BLANK] + Joined(tokens[1..])
  }

  // --- one token there and back ------------------------------------------------------------------------

  /** What may follow a token: nothing, or a blank and more. */
  predicate Follows(rest: seq<byte>) {
    rest == [] || rest[0] == BLANK
  }

  lemma ScanEscaped(c: byte, t: seq<byte>, open: bool)
    ensures Scan([BACKSLASH, c] + t, open) == ([c] + Scan(t, open).0, 2 + Scan(t, open).1)
  {
    assert ([BACKSLASH, c] + t)[2..] == t;
  }

  lemma ScanQuote(t: seq<byte>, open: bool)
    ensures Scan([QUOTE] + t, open) == (Scan(t, !open).0, 1 + Scan(t, !open).1)
  {
    assert ([QUOTE] + t)[1..] == t;
  }

  lemma ScanPlain(c: byte, t: seq<byte>, open: bool)
    requires !Special(c) && (c == BLANK ==> open)
    ensures Scan([c] + t, open) == ([c] + Scan(t, open).0, 1 + Scan(t, open).1)
  {
    assert ([c] + t)[1..] == t;
  }

  lemma BodyStep(src: seq<byte>, n: nat, open: bool)
    requires n < |src|
    ensures src[n..][0] == src[n] && src[n..][1..] == src[n + 1..]
    ensures Body(src[n..], open) ==
              if Special(src[n]) then [BACKSLASH, src[n]] + Body(src[n + 1..], open)
              else if src[n] == BLANK && !open then [QUOTE, BLANK] + Body(src[n + 1..], true)
              else [src[n]] + Body(src[n + 1..], open)
  {
    assert src[n..][1..] == src[n + 1..];
  }

  lemma BodyEnd(open: bool)
    ensures Body([], open) == if open then [QUOTE] else []
  {
  }

  /** Scanning the quoted form of a token gives the token back and stops behind the blank. */
  lemma {:induction false} ScanBody(src: seq<byte>, open: bool, rest: seq<byte>)
    requires Follows(rest)
    ensures Scan(Body(src, open) + rest, open) == (src, |Body(src, open)| + if rest == [] then 0 else 1)
    decreases |src|
  {
    hide Scan, Body;
    if src == [] {
      ScanEnd(rest);
      BodyEnd(open);
      if open {
        ScanQuote(rest, true);
      } else {
        assert Body(src, open) + rest == rest;
      }
      return;
    }
    var c, more := src[0], src[1..];
    assert src == [c] + more && src[0..] == src;
    BodyStep(src, 0, open);
    if Special(c) {
      ScanBody(more, open, rest);
      ScanEscaped(c, Body(more, open) + rest, open);
      assert Body(src, open) + rest == [BACKSLASH, c] + (Body(more, open) + rest);
    } else if c == BLANK && !open {
      ScanBody(more, true, rest);
      ScanPlain(BLANK, Body(more, true) + rest, true);
      ScanQuote([BLANK] + (Body(more, true) + rest), false);
      assert Body(src, open) + rest == [QUOTE] + ([BLANK] + (Body(more, true) + rest));
    } else {
      ScanBody(more, open, rest);
      ScanPlain(c, Body(more, open) + rest, open);
      assert Body(src, open) + rest == [c] + (Body(more, open) + rest);
    }
  }

  lemma ScanEnd(rest: seq<byte>)
    requires Follows(rest)
    ensures Scan(rest, false) == ([], if rest == [] then 0 else 1)
  {
  }

  lemma ScanQuoted(src: seq<byte>, rest: seq<byte>)
    requires Follows(rest)
    ensures Scan(Quoted(src) + rest, false) == (src, |Quoted(src)| + if rest == [] then 0 else 1)
    ensures Quoted(src) != [] && Quoted(src)[0] != BLANK
  {
    hide Scan;
    ScanEnd(rest);
    if src == [] {
      ScanQuote([QUOTE] + rest, false);
      ScanQuote(rest, true);
      assert Quoted(src) + rest == [QUOTE] + ([QUOTE] + rest);
    } else {
      assert src[0..] == src;
      BodyStep(src, 0, false);
      hide Body;
      ScanBody(src, false, rest);
    }
  }

  // --- the source's loops --------------------------------------------------------------------------------

  /** One byte more. */
  method Put(dest: array<byte>, at: nat, len: nat, c: byte)
    requires at + len < dest.Length
    modifies dest
    ensures dest[at..at + len + 1] == old(dest[at..at + len]) + [c]
    ensures forall i :: 0 <= i < dest.Length && i != at + len ==> dest[i] == old(dest[i])
  {
    dest[at + len] := c;
  }

  /** tcpquotedcopy: write the quoted form of a token into a buffer, from `at` on. */
  method QuotedCopy(dest: array<byte>, at: nat, src: seq<byte>) returns (destlen: nat)
    requires at + |Quoted(src)| <= dest.Length
    modifies dest
    ensures destlen == |Quoted(src)| && dest[at..at + destlen] == Quoted(src)
    ensures forall i :: 0 <= i < dest.Length && !(at <= i < at + destlen) ==> dest[i] == old(dest[i])
  {
    if |src| == 0 {
      dest[at], dest[at + 1] := QUOTE, QUOTE;
      return 2;
    }
    var open;
    destlen, open := CopyAll(dest, at, src);
    if open {
      assert |dest[at..at + destlen] + [QUOTE]| == |Quoted(src)|;
      Put(dest, at, destlen, QUOTE);
      destlen := destlen + 1;
    }
  }

  /** The copying loop; `open` tells whether a quotation mark is still to be closed. */
  method CopyAll(dest: array<byte>, at: nat, src: seq<byte>) returns (destlen: nat, open: bool)
    requires at + |Body(src, false)| <= dest.Length
    modifies dest
    ensures at + destlen <= dest.Length
    ensures dest[at..at + destlen] + (if open then [QUOTE] else []) == Body(src, false)
    ensures forall i :: 0 <= i < dest.Length && !(at <= i < at + destlen) ==> dest[i] == old(dest[i])
  {
    hide Body;
    var cnt := 0;
    destlen, open := 0, false;
    assert src[0..] == src && dest[at..at] == [];
    while cnt < |src|
      invariant 0 <= cnt <= |src| && at + destlen <= dest.Length
      invariant dest[at..at + destlen] + Body(src[cnt..], open) == Body(src, false)
      invariant forall i :: 0 <= i < dest.Length && !(at <= i < at + destlen) ==> dest[i] == old(dest[i])
    {
      assert |dest[at..at + destlen] + Body(src[cnt..], open)| == |Body(src, false)|;
      destlen, open := CopyOne(dest, at, destlen, src, cnt, open);
      cnt := cnt + 1;
    }
    assert src[cnt..] == [];
    BodyEnd(open);
  }

  /** One character of the token, escaped, or preceded by the quotation mark it calls for. */
  method CopyOne(dest: array<byte>, at: nat, len: nat, src: seq<byte>, cnt: nat, open: bool)
    returns (len': nat, open': bool)
    requires cnt < |src| && at + len <= dest.Length
    requires at + len + |Body(src[cnt..], open)| <= dest.Length
    modifies dest
    ensures len <= len' && at + len' <= dest.Length
    ensures dest[at..at + len'] + Body(src[cnt + 1..], open') == old(dest[at..at + len]) + Body(src[cnt..], open)
    ensures forall i :: 0 <= i < dest.Length && !(at + len <= i < at + len') ==> dest[i] == old(dest[i])
  {
    BodyStep(src, cnt, open);
    hide Body;
    len', open' := len, open;
    if Special(src[cnt]) {
      Put(dest, at, len', BACKSLASH);
      len' := len' + 1;
    } else if src[cnt] == BLANK && !open {
      open' := true;
      Put(dest, at, len', QUOTE);
      len' := len' + 1;
    }
    Put(dest, at, len', src[cnt]);
    len' := len' + 1;
  }

  /** Leading blanks are not part of a token. */
  function Blanks(s: seq<byte>): (n: nat)
    ensures n <= |s| && (n < |s| ==> s[n] != BLANK)
  {
    if s == [] || s[0] != BLANK then 0 else 1 + Blanks(s[1..])
  }

  method SkipBlanks(data: array<byte>, datalen: nat, offset: nat) returns (start: nat)
    requires offset <= datalen <= data.Length
    ensures offset <= start <= datalen && start == offset + Blanks(data[offset..datalen])
  {
    start := offset;
    while start < datalen && data[start] == BLANK
      invariant offset <= start <= datalen
      invariant start + Blanks(data[start..datalen]) == offset + Blanks(data[offset..datalen])
    {
      assert data[start..datalen][1..] == data[start + 1..datalen];
      start := start + 1;
    }
  }

  /** What is left to extract when a scan of s has come to position k. */
  function From(s: seq<byte>, k: nat, open: bool): (seq<byte>, nat)
    requires k <= |s|
  {
    Scan(s[k..], open)
  }

  lemma FromStep(s: seq<byte>, k: nat, open: bool)
    requires k < |s|
    ensures s[k] == BACKSLASH && k + 1 == |s| ==> From(s, k, open) == ([], 1)
    ensures s[k] == BACKSLASH && k + 1 < |s| ==>
              From(s, k, open) == ([s[k + 1]] + From(s, k + 2, open).0, 2 + From(s, k + 2, open).1)
    ensures s[k] == BLANK && !open ==> From(s, k, open) == ([], 1)
    ensures s[k] == QUOTE ==> From(s, k, open) == (From(s, k + 1, !open).0, 1 + From(s, k + 1, !open).1)
    ensures !Special(s[k]) && (s[k] == BLANK ==> open) ==>
              From(s, k, open) == ([s[k]] + From(s, k + 1, open).0, 1 + From(s, k + 1, open).1)
  {
    var t := s[k..];
    assert t[1..] == s[k + 1..];
    if k + 1 < |s| {
      assert t[1] == s[k + 1] && t[2..] == s[k + 2..];
    }
  }

  lemma FromEnds(s: seq<byte>, open: bool)
    ensures From(s, |s|, open) == ([], 0)
    ensures From(s, 0, open) == Scan(s, open)
  {
    assert s[0..] == s && s[|s|..] == [];
  }

  /** tcpnextdata: extract the next token of data[..datalen] from `offset` on, writing its text over its
      own quoted form. The code is the length of the text, -1 at the end, and 0 if there is no data. */
  method NextData(data: array<byte>, datalen: nat, offset: nat) returns (code: int, start: nat, next: nat)
    requires offset <= datalen <= data.Length
    modifies data
    ensures datalen == 0 ==> code == 0 && data[..] == old(data[..]) && next == start == offset
    ensures datalen > 0 ==> start == offset + Blanks(old(data[offset..datalen]))
    ensures code == -1 <==> datalen > 0 && start == datalen
    ensures code == -1 ==> next == datalen && data[..] == old(data[..])
    ensures code != -1 && datalen > 0 ==>
              && 0 <= code && start < next <= datalen && next == start + Scan(old(data[start..datalen]), false).1
              && start + code <= next && data[start..start + code] == Scan(old(data[start..datalen]), false).0
    ensures forall i :: 0 <= i < data.Length && !(start <= i < next) ==> data[i] == old(data[i])
  {
    hide Scan;
    start, next := offset, offset;
    if datalen == 0 {
      return 0, start, next;
    }
    start := SkipBlanks(data, datalen, offset);
    if start == datalen {
      return -1, start, datalen;
    }
    code, next := Unquote(data, datalen, start);
  }

  /** The scanning loop: text is moved down over quotation marks and backslashes. */
  method Unquote(data: array<byte>, datalen: nat, start: nat) returns (len: nat, next: nat)
    requires start < datalen <= data.Length
    modifies data
    ensures start < next <= datalen && start + len <= next
    ensures next == start + Scan(old(data[start..datalen]), false).1
    ensures data[start..start + len] == Scan(old(data[start..datalen]), false).0
    ensures forall i :: 0 <= i < data.Length && !(start <= i < next) ==> data[i] == old(data[i])
  {
    hide Scan, From;
    ghost var s := data[start..datalen];
    ghost var want := Scan(s, false);
    FromEnds(s, false);
    var quoteflag, i1, cnt := false, start, start;
    assert data[start..i1] + want.0 == want.0;
    while cnt < datalen
      invariant start <= i1 <= cnt <= datalen
      invariant forall i :: 0 <= i < data.Length && !(start <= i < i1) ==> data[i] == old(data[i])
      invariant want.0 == data[start..i1] + From(s, cnt - start, quoteflag).0
      invariant want.1 == cnt - start + From(s, cnt - start, quoteflag).1
    {
      FromStep(s, cnt - start, quoteflag);
      if data[cnt] == BACKSLASH {
        cnt := cnt + 1;
        if cnt == datalen {
          return i1 - start, cnt;
        }
      } else if data[cnt] == BLANK && !quoteflag {
        cnt := cnt + 1;
        return i1 - start, cnt;
      } else if data[cnt] == QUOTE {
        quoteflag := !quoteflag;
        cnt := cnt + 1;
        continue;
      }
      KeepOne(data, start, i1, cnt, From(s, cnt + 1 - start, quoteflag).0);
      i1 := i1 + 1;
      cnt := cnt + 1;
    }
    FromEnds(s, quoteflag);
    return i1 - start, cnt;
  }

  /** Move one character of the text down to where it belongs. */
  method KeepOne(data: array<byte>, start: nat, i1: nat, cnt: nat, ghost more: seq<byte>)
    requires start <= i1 <= cnt < data.Length
    modifies data
    ensures data[start..i1 + 1] + more == old(data[start..i1] + ([data[cnt]] + more))
    ensures forall i :: 0 <= i < data.Length && i != i1 ==> data[i] == old(data[i])
  {
    ghost var before, c := data[start..i1], data[cnt];
    if i1 != cnt {
      data[i1] := data[cnt];
    }
    assert data[start..i1 + 1] == before + [c];
  }

  // --- a whole list there and back -------------------------------------------------------------------------

  /** The bytes that follow the first token. */
  function Rest(tokens: seq<seq<byte>>): seq<byte>
    requires tokens != []
  {
    if |tokens| == 1 then [] else [BLANK] + Joined(tokens[1..])
  }

  /** A list is written as nothing at all exactly when it is empty, and a nonempty one starts with
      something other than a blank. An empty list is the one that a reader cannot tell: asked for the
      next token of no data, the source answers 0, as for an empty token, and not -1. */
  lemma JoinedHead(tokens: seq<seq<byte>>)
    ensures tokens != [] ==> Joined(tokens) == Quoted(tokens[0]) + Rest(tokens) && Follows(Rest(tokens))
    ensures tokens != [] ==> Scan(Joined(tokens), false).0 == tokens[0]
    ensures tokens != [] ==> Scan(Joined(tokens), false).1 == |Joined(tokens)| - |Joined(tokens[1..])|
    ensures tokens != [] ==> Blanks(Joined(tokens)) == 0
    ensures Joined(tokens) == [] <==> tokens == []
  {
    hide Scan, Body;
    if tokens != [] {
      ScanQuoted(tokens[0], Rest(tokens));
    }
  }

  /** Write a list of tokens, separated by single blanks. */
  method WriteList(dest: array<byte>, tokens: seq<seq<byte>>) returns (len: nat)
    requires |Joined(tokens)| <= dest.Length
    modifies dest
    ensures len == |Joined(tokens)| && dest[..len] == Joined(tokens)
  {
    hide Quoted;
    len := 0;
    var k := 0;
    assert tokens[0..] == tokens && dest[..0] == [];
    while k < |tokens|
      invariant 0 <= k <= |tokens| && len <= dest.Length
      invariant dest[..len] + Joined(tokens[k..]) == Joined(tokens)
      invariant k == |tokens| ==> len == |Joined(tokens)|
    {
      len := WriteOne(dest, len, tokens[k..], Joined(tokens));
      assert tokens[k..][1..] == tokens[k + 1..];
      k := k + 1;
    }
    assert tokens[k..] == [];
  }

  /** Write the first of the remaining tokens, and a blank if there are more. */
  method WriteOne(dest: array<byte>, at: nat, tokens: seq<seq<byte>>, ghost whole: seq<byte>) returns (len: nat)
    requires tokens != [] && at <= dest.Length && |whole| <= dest.Length
    requires dest[..at] + Joined(tokens) == whole
    modifies dest
    ensures len <= dest.Length && dest[..len] + Joined(tokens[1..]) == whole
  {
    hide Quoted;
    ghost var done, q := dest[..at], Quoted(tokens[0]);
    assert |whole| == at + |Joined(tokens)|;
    assert |Joined(tokens)| == |q| + |Rest(tokens)|;
    var n := QuotedCopy(dest, at, tokens[0]);
    len := at + n;
    PrefixGrows(dest, at, len, done, q);
    if |tokens| > 1 {
      dest[len] := BLANK;
      len := len + 1;
      PrefixGrows(dest, len - 1, len, done + q, [BLANK]);
    }
    Regroup(done, q, tokens);
  }

  lemma PrefixGrows(dest: array<byte>, at: nat, len: nat, done: seq<byte>, q: seq<byte>)
    requires at <= len <= dest.Length && dest[..at] == done && dest[at..len] == q
    ensures dest[..len] == done + q
  {
  }

  lemma Regroup(done: seq<byte>, q: seq<byte>, tokens: seq<seq<byte>>)
    requires tokens != [] && q == Quoted(tokens[0])
    ensures done + Joined(tokens) ==
              (if |tokens| > 1 then done + q + [BLANK] else done + q) + Joined(tokens[1..])
  {
    hide Quoted;
    if |tokens| > 1 {
      Concat4(done, q, [BLANK], Joined(tokens[1..]));
    }
  }

  lemma Concat4(a: seq<byte>, b: seq<byte>, c: seq<byte>, d: seq<byte>)
    ensures a + (b + c + d) == a + b + c + d
  {
  }

  /** QUOTED-TOKEN ROUND TRIP: calling tcpnextdata until it answers -1 on a buffer that holds a written
      list gives back the list, token by token, although every call rewrites the buffer. */
  method ReadList(data: array<byte>, datalen: nat, ghost tokens: seq<seq<byte>>) returns (out: seq<seq<byte>>)
    requires datalen <= data.Length && tokens != [] && data[..datalen] == Joined(tokens)
    modifies data
    ensures out == tokens
  {
    hide Joined;
    JoinedHead(tokens);
    out := [];
    assert tokens[0..] == tokens && data[0..datalen] == data[..datalen];
    var offset := 0;
    while true
      invariant 0 <= offset <= datalen && datalen > 0 && |out| <= |tokens|
      invariant data[offset..datalen] == Joined(tokens[|out|..])
      invariant out == tokens[..|out|]
      decreases |tokens| - |out|
    {
      var done, token, next := ReadOne(data, datalen, offset, tokens[|out|..]);
      if done {
        return;
      }
      assert tokens[|out|..][1..] == tokens[|out| + 1..];
      out := out + [token];
      offset := next;
    }
  }

  /** The exact extent of the round trip: of at most n calls, one reports the end exactly when the list is not empty and has fewer
      than n tokens. For the empty list every call answers with an empty token, so that a reader never comes to an end. */
  method ReadAtMost(data: array<byte>, datalen: nat, n: nat, ghost tokens: seq<seq<byte>>) returns (out: seq<seq<byte>>, ended: bool)
    requires datalen <= data.Length && data[..datalen] == Joined(tokens)
    modifies data
    ensures ended <==> tokens != [] && |tokens| < n
    ensures tokens != [] ==> out == if |tokens| < n then tokens else tokens[..n]
    ensures tokens == [] ==> |out| == n && forall i :: 0 <= i < n ==> out[i] == []
  {
    hide Joined;
    JoinedHead(tokens);
    out, ended := [], false;
    assert tokens[0..] == tokens && data[0..datalen] == data[..datalen];
    var offset := 0;
    for i := 0 to n
      invariant 0 <= offset <= datalen && |out| == i && !ended && (datalen == 0 <==> tokens == [])
      invariant datalen > 0 ==> i <= |tokens| && data[offset..datalen] == Joined(tokens[i..]) && out == tokens[..i]
      invariant datalen == 0 ==> offset == 0 && forall j :: 0 <= j < i ==> out[j] == []
    {
      var token, next;
      if datalen == 0 {
        var code, start;
        code, start, next := NextData(data, datalen, offset);
        token := data[start..start + code];
      } else {
        ended, token, next := ReadOne(data, datalen, offset, tokens[i..]);
        if ended {
          assert out == tokens;
          return;
        }
        assert tokens[i..][1..] == tokens[i + 1..];
      }
      out := out + [token];
      offset := next;
    }
  }

  method ReadOne(data: array<byte>, datalen: nat, offset: nat, ghost left: seq<seq<byte>>)
    returns (done: bool, token: seq<byte>, next: nat)
    requires 0 < datalen <= data.Length && offset <= datalen && data[offset..datalen] == Joined(left)
    modifies data
    ensures done <==> left == []
    ensures !done ==> token == left[0] && next <= datalen && data[next..datalen] == Joined(left[1..])
  {
    hide Scan, Joined, Blanks, Quoted;
    LeftFacts(left);
    var code, start;
    code, start, next := NextData(data, datalen, offset);
    if code == -1 {
      return true, [], next;
    }
    assert start == offset;
    done, token := false, data[start..start + code];
    SuffixStill(old(data[offset..datalen]), data[offset..datalen], next - offset);
    assert data[next..datalen] == data[offset..datalen][next - offset..];
  }

  lemma SuffixStill(a: seq<byte>, b: seq<byte>, k: nat)
    requires |a| == |b| && k <= |a| && forall i :: k <= i < |a| ==> a[i] == b[i]
    ensures a[k..] == b[k..]
  {
  }

  lemma LeftFacts(left: seq<seq<byte>>)
    ensures Joined(left) == [] <==> left == []
    ensures Blanks(Joined(left)) == 0
    ensures left != [] ==>
              && Scan(Joined(left), false).0 == left[0] && Scan(Joined(left), false).1 <= |Joined(left)|
              && Joined(left)[Scan(Joined(left), false).1..] == Joined(left[1..])
  {
    hide Scan, Quoted;
    JoinedHead(left);
    if left != [] {
      RestAfter(left);
    }
  }

  lemma RestAfter(tokens: seq<seq<byte>>)
    requires tokens != []
    ensures Scan(Joined(tokens), false).1 <= |Joined(tokens)|
    ensures Joined(tokens)[Scan(Joined(tokens), false).1..] == Joined(tokens[1..])
  {
    hide Scan, Quoted;
    JoinedHead(tokens);
    var q := Quoted(tokens[0]);
    if |tokens| > 1 {
      assert Joined(tokens) == (q + [BLANK]) + Joined(tokens[1..]);
    }
  }
}
