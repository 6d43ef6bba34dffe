/** Building a tree from a text (xml.c, xmlparse): records from the end of the buffer, strings from its start. */
module XmlParse {
  import opened Bytes
  import opened XmlTags
  import opened XmlTree
  import opened XmlScan
  import opened XmlGrammar
  import opened XmlStore
  import opened XmlCells
  import opened XmlReader
  import XmlFlatten
  import opened Lists

  /** The strings in the part of the buffer that is in use. */
  function Written(text: seq<byte>): seq<byte> {
    if |text| < FIRST then [] else text[FIRST..]
  }

  /** The marks keep strings and records apart; nothing is in use before the first record. */
  predicate Marks(lowmark: int, himark: int, cap: int, cells: seq<Cell>) {
    && 0 <= lowmark <= himark <= cap
    && (if cells == [] then lowmark == 0 && himark == cap else FIRST <= lowmark)
  }

  /** The records of the open elements. */
  ghost predicate PathOk(path: seq<nat>, frames: seq<Frame>) {
    && |path| == |frames| <= MAXDEPTH
    && forall k :: 0 <= k < |path| ==> path[k] + 1 == Base(frames[..k + 1])
  }

  lemma PathMore(path: seq<nat>, frames: seq<Frame>, f: Frame, i: nat)
    requires PathOk(path, frames) && |path| < MAXDEPTH && i + 1 == Base(frames + [f])
    ensures PathOk(path + [i], frames + [f])
  {
    forall k | 0 <= k < |path| + 1
      ensures (path + [i])[k] + 1 == Base((frames + [f])[..k + 1])
    {
      if k < |path| {
        assert (frames + [f])[..k + 1] == frames[..k + 1];
      } else {
        assert (frames + [f])[..k + 1] == frames + [f];
      }
    }
  }

  lemma PathLess(path: seq<nat>, frames: seq<Frame>)
    requires PathOk(path, frames) && frames != []
    ensures PathOk(path[..|path| - 1], frames[..|frames| - 1]) && path[|path| - 1] + 1 == Base(frames)
  {
    var n := |path| - 1;
    assert frames[..n + 1] == frames;
    forall k | 0 <= k < n
      ensures path[..n][k] + 1 == Base(frames[..n][..k + 1])
    {
      assert frames[..n][..k + 1] == frames[..k + 1];
    }
  }

  class Build {
    const text: array<byte>
    const cap: nat                      // the size of the buffer, down to a multiple of the size of a pointer
    var lowmark: int
    var himark: int
    var cells: seq<Cell>
    var elementptr: Slot
    var outputpath: seq<nat>
    ghost var frames: seq<Frame>
    ghost var cur: seq<Node>

    /** The records and strings are those of these open elements and nodes. */
    ghost predicate Made(fs: seq<Frame>, ns: seq<Node>)
      reads `lowmark, `himark, `cells, text
    {
      && cap <= text.Length && Marks(lowmark, himark, cap, cells)
      && Placed(cells, Written(text[..lowmark]), fs, ns)
    }

    ghost predicate Valid()
      reads this, text
    {
      Made(frames, cur) && elementptr == SlotOf(frames, cur) && PathOk(outputpath, frames)
    }

    function Used(): int
      reads `lowmark, `himark
    {
      lowmark + cap - himark
    }

    constructor (size: nat)
      ensures Valid() && frames == [] && cur == [] && Used() == 0 && cap == size - size % 8
      ensures fresh(text) && text.Length == size
    {
      text := new byte[size];
      cap := size - size % 8;
      lowmark, himark, cells, elementptr, outputpath, frames, cur := 0, size - size % 8, [], Nowhere, [], [], [];
    }

    /** Make room for a record of an element or of character data. */
    method Allot() returns (ok: bool)
      requires Valid()
      modifies `lowmark, `himark
      ensures ok <==> old(Used()) + ELEMENT <= cap
      ensures ok ==> Used() == old(Used()) + ELEMENT && 0 <= lowmark <= himark <= cap && FIRST <= lowmark
                     && Written(text[..lowmark]) == old(Written(text[..lowmark]))
    {
      if cells == [] {
        lowmark := lowmark + ELEMENT;
        return lowmark <= himark;
      }
      himark := himark - ELEMENT;
      ok := lowmark <= himark;
    }

    /** An element whose attributes are being read: these of them are there. */
    ghost predicate Opening(tag: seq<byte>, attrs: seq<Attr>)
      reads this, text
    {
      && Made(frames + [Frame(tag, attrs, cur)], []) && cells != []
      && elementptr == SlotOf(frames, cur) && PathOk(outputpath, frames)
    }

    method NewElement(tag: seq<byte>) returns (ok: bool)
      requires Valid()
      modifies `lowmark, `himark, `cells, `elementptr
      ensures ok <==> old(Used()) + ELEMENT <= cap
      ensures ok ==> Opening(tag, []) && Used() == old(Used()) + ELEMENT
    {
      hide Placed, PathOk;
      ElementOpened(cells, Written(text[..lowmark]), frames, cur, tag);
      ok := Allot();
      if ok {
        cells := Linked(cells, elementptr, |cells|) + [ElemCell(tag, [], UNSET, UNSET)];
      }
    }

    /** Read an attribute of the element that is being made. */
    method AddAttr(tags: Tags, input: seq<byte>, i: nat, ghost tag: seq<byte>, ghost attrs: seq<Attr>) returns (rc: int, next: nat)
      requires Opening(tag, attrs) && tags.Valid() && text != tags.othertagstext && i < |input|
      modifies `lowmark, `himark, `cells, text, tags, tags.othertags, tags.othertagstext
      ensures rc == OK || rc == SPACE || rc == SYNTAX
      ensures rc == OK ==>
                && ReadAttr(input, i).AttrList? && next == ReadAttr(input, i).next
                && tags.Valid() && Opening(tag, attrs + ReadAttr(input, i).attrs)
                && Met(old(Store(tags.names, Used())), Store(tags.names, Used()), cap, AttrClaims(ReadAttr(input, i).attrs[0]))
      ensures rc != OK ==> ReadAttr(input, i).AttrList? ==>
                !HasAll(old(Store(tags.names, Used())), cap, AttrClaims(ReadAttr(input, i).attrs[0]))
    {
      hide Placed, PathOk, ReadName, ReadAttr, Learns, Learnt, HasAll, TakeAll, AttrClaims, Right, IsName, Points, SlotOf, Written, Tags.Valid;
      ghost var st := Store(tags.names, Used());
      ghost var cells0, strings := cells, Written(text[..lowmark]);
      next := i;
      AttrRead(input, i, st, cap);
      var name := NameAt(input, i);
      if name.NoLabel? {
        return SYNTAX, next;
      }
      NameRead(input, i);
      var got := tags.GetTag(input[i..name.end]);
      if !got.Name? {
        return SYNTAX, next;
      }
      himark := himark - ATTRIBUTE;
      if lowmark > himark {
        return SPACE, next;
      }
      LastIsElement(cells, strings, frames, tag, attrs, cur);
      var last := |cells| - 1;
      cells := cells[last := cells[last].(attrs := cells[last].attrs + [AttrCell(input[i..name.end], lowmark)])];
      ghost var before := text[..lowmark];
      rc, next, lowmark := AttrValueInto(input, i, name.end, text, lowmark, himark);
      if rc == OK {
        ghost var a := ReadAttr(input, i).attrs[0];
        assert ReadAttr(input, i).attrs == [a];
        AttrAdded(cells0, strings, frames, tag, attrs, cur, a);
        WrittenMore(before, a.value);
      }
    }

    /** Read all attributes of the element that is being made. */
    method AddAttrs(tags: Tags, input: seq<byte>, q: nat, ghost tag: seq<byte>) returns (rc: int, next: nat)
      requires Opening(tag, []) && tags.Valid() && text != tags.othertagstext && q < |input|
      modifies `lowmark, `himark, `cells, text, tags, tags.othertags, tags.othertagstext
      ensures rc == OK || rc == SPACE || rc == SYNTAX
      ensures rc == OK ==>
                && ReadAttrs(input, q).AttrList? && next == ReadAttrs(input, q).next
                && tags.Valid() && Opening(tag, ReadAttrs(input, q).attrs)
                && Met(old(Store(tags.names, Used())), Store(tags.names, Used()), cap, AttrsClaims(ReadAttrs(input, q).attrs))
      ensures rc != OK ==> ReadAttrs(input, q).AttrList? ==>
                !HasAll(old(Store(tags.names, Used())), cap, AttrsClaims(ReadAttrs(input, q).attrs))
    {
      hide Made, SlotOf, PathOk, ReadAttr, HasAll, TakeAll, AttrClaims, AttrsClaims, Tags.Valid;
      ghost var st, attrs := Store(tags.names, Used()), [];
      next, rc := q, OK;
      NoAttrsYet(input, q, st, cap);
      while IsLower(input[next])
        invariant rc == OK && q <= next < |input| && tags.Valid() && Opening(tag, attrs)
        invariant Met(st, Store(tags.names, Used()), cap, AttrsClaims(attrs))
        invariant ReadAttrs(input, q) == Prepend(attrs, ReadAttrs(input, next))
        decreases |input| - next
      {
        hide ReadAttrs;
        ghost var at := next;
        ghost var now := Store(tags.names, Used());
        AttrsStep(input, at, attrs);
        rc, next := AddAttr(tags, input, next, tag, attrs);
        ghost var a := ReadAttr(input, at);
        if a.AttrList? {
          assert a.attrs == [a.attrs[0]];
          AttrMet(st, now, Store(tags.names, Used()), cap, attrs, a.attrs[0]);
        }
        if rc != OK {
          if a.AttrList? && ReadAttrs(input, q).AttrList? {
            LacksMore(st, cap, attrs + a.attrs, ReadAttrs(input, a.next).attrs);
          }
          return;
        }
        attrs := attrs + a.attrs;
      }
      assert attrs + [] == attrs;
    }

    /** An item has been dealt with. */
    ghost predicate Dealt(tags: Tags, st: Store, fs: seq<Frame>, ns: seq<Node>, item: Item, next: nat)
      reads this, text, tags, tags.othertags, tags.othertagstext
    {
      && !item.Bad? && next == item.next && Valid() && tags.Valid()
      && Met(st, Store(tags.names, Used()), cap, ItemClaims(item)) && Step(fs, ns, item) == State(frames, cur)
    }

    /** The innermost open element is closed; the links at its end are set. */
    method CloseTop(at: nat)
      requires Made(frames, cur) && frames != [] && PathOk(outputpath, frames[..|frames| - 1]) && at + 1 == Base(frames)
      requires elementptr == SlotOf(frames, cur)
      modifies `cells, `elementptr, `frames, `cur
      ensures Valid()
      ensures var f := old(frames)[|old(frames)| - 1];
              frames == old(frames)[..|old(frames)| - 1] && cur == f.before + [Elem(f.tag, f.attrs, old(cur))]
    {
      hide Placed, PathOk, SlotOf;
      ghost var f := frames[|frames| - 1];
      assert frames == frames[..|frames| - 1] + [f];
      ElementClosed(cells, Written(text[..lowmark]), frames[..|frames| - 1], f, cur);
      cells := Linked(cells, elementptr, NIL);
      elementptr := Next(at);
      cur := f.before + [Elem(f.tag, f.attrs, cur)];
      frames := frames[..|frames| - 1];
    }

    /** The start of an element, whose name ends at e and is followed by something at q. */
    method StartElement(tags: Tags, input: seq<byte>, p: nat, e: nat, q: nat) returns (rc: int, next: nat)
      requires Valid() && tags.Valid() && text != tags.othertagstext
      requires p < |input| && ReadName(input, p) == Label(e) && q == Skip(input, e) < |input|
      modifies this, text, tags, tags.othertags, tags.othertagstext
      ensures rc == OK || rc == SPACE || rc == SYNTAX
      ensures rc == OK ==> Dealt(tags, old(Store(tags.names, Used())), old(frames), old(cur), ReadTag(input, p, false), next)
      ensures rc != OK ==> Undone(old(Store(tags.names, Used())), cap, old(frames), old(cur), ReadTag(input, p, false))
    {
      hide Placed, PathOk, SlotOf, ReadName, ReadAttrs, ReadClose, HasAll, TakeAll, StartClaims, AttrsClaims, Tags.Valid;
      ghost var st, fs, ns := Store(tags.names, Used()), frames, cur;
      ghost var item := ReadTag(input, p, false);
      TagRead(input, p, e, q);
      next := q;
      var tag := input[p..e];
      ghost var a := ReadAttrs(input, q);
      if a.AttrList? {
        StartHas(st, cap, tag, a.attrs);
      }
      var got := tags.GetTag(tag);
      if !got.Name? {
        return SYNTAX, next;
      }
      var ok := NewElement(tag);
      if !ok {
        return SPACE, next;
      }
      ghost var mid := Store(tags.names, Used());
      rc, next := AddAttrs(tags, input, q, tag);
      if rc != OK {
        return;
      }
      var closed;
      rc, closed, next := CloseAt(input, next, tag, a.attrs);
      if rc != OK {
        return;
      }
      rc := FinishStart(tag, a.attrs, closed, next);
    }

    /** The element that is being made has been read up to its closing bracket. */
    method FinishStart(tag: seq<byte>, ghost attrs: seq<Attr>, closed: bool, ghost next: nat) returns (rc: int)
      requires Opening(tag, attrs)
      modifies `cells, `elementptr, `outputpath, `frames, `cur
      ensures rc == OK || rc == SYNTAX
      ensures rc == OK ==> Valid() && Step(old(frames), old(cur), Start(tag, attrs, closed, next)) == State(frames, cur)
      ensures rc != OK ==> Step(old(frames), old(cur), Start(tag, attrs, closed, next)).Failed?
    {
      hide Placed, PathOk, SlotOf;
      ghost var f := Frame(tag, attrs, cur);
      ghost var strings := Written(text[..lowmark]);
      LastIsElement(cells, strings, frames, tag, attrs, cur);
      OpeningAt(cells, strings, frames, f);
      PathLength(outputpath, frames);
      var at := |cells| - 1;
      if closed {
        ElementClosed(cells, strings, frames, f, []);
        cells := cells[at := cells[at].(sub := NIL)];
        elementptr := Next(at);
        cur := cur + [Elem(tag, attrs, [])];
      } else {
        if |outputpath| == MAXDEPTH {
          return SYNTAX;
        }
        PathMore(outputpath, frames, f, at);
        outputpath := outputpath + [at];
        elementptr := Sub(at);
        frames, cur := frames + [f], [];
      }
      rc := OK;
    }

    /** The end of an element, whose name ends at e and is followed by something at q. */
    method EndElement(tags: Tags, input: seq<byte>, p: nat, e: nat, q: nat) returns (rc: int, next: nat)
      requires Valid() && tags.Valid() && text != tags.othertagstext
      requires p < |input| && ReadName(input, p) == Label(e) && q == Skip(input, e) < |input|
      modifies this
      ensures rc == OK || rc == SYNTAX
      ensures rc == OK ==> Dealt(tags, old(Store(tags.names, Used())), old(frames), old(cur), ReadTag(input, p, true), next)
      ensures rc != OK ==> Undone(old(Store(tags.names, Used())), cap, old(frames), old(cur), ReadTag(input, p, true))
    {
      hide Placed, PathOk, SlotOf, ReadName, Tags.Valid;
      TagRead(input, p, e, q);
      PathLength(outputpath, frames);
      next := q;
      if input[q] != GT || |outputpath| == 0 {
        return SYNTAX, next;
      }
      PathLess(outputpath, frames);
      OpenRecord(cells, Written(text[..lowmark]), frames, cur);
      var output := outputpath[|outputpath| - 1];
      outputpath := outputpath[..|outputpath| - 1];
      if cells[output].tag != input[p..e] {
        return SYNTAX, next;
      }
      CloseTop(output);
      rc, next := OK, q + 1;
      NothingMet(Store(tags.names, Used()), cap);
    }

    /** Character data. */
    method AddData(tags: Tags, input: seq<byte>, i: nat, d: nat) returns (rc: int, next: nat)
      requires Valid() && tags.Valid() && text != tags.othertagstext
      requires i <= |input| && d == SkipDelims(input, i) < |input| && input[d] != LT
      modifies this, text
      ensures rc == OK || rc == SPACE || rc == SYNTAX
      ensures rc == OK ==> Dealt(tags, old(Store(tags.names, Used())), old(frames), old(cur), ReadItem(input, i), next)
      ensures rc != OK ==> Undone(old(Store(tags.names, Used())), cap, old(frames), old(cur), ReadItem(input, i))
    {
      hide Placed, PathOk, SlotOf, ReadItem, SkipDelims, HasAll, TakeAll, TextClaims, Step, Written, Tags.Valid;
      ghost var item := ReadItem(input, i);
      DataItem(input, i, d);
      next := i;
      if item.Chars? {
        TextHas(Store(tags.names, Used()), cap, item.data);
        StepText(frames, cur, item);
      }
      ghost var was, slot, strings := cells, elementptr, Written(text[..lowmark]);
      LeafAdded(cells, strings, frames, cur, if item.Chars? then item.data else []);
      var ok := NewData();
      if !ok {
        return SPACE, next;
      }
      ghost var before := text[..lowmark];
      var at, n := lowmark, |cells| - 1;
      rc, next, lowmark := DataInto(input, i, d, text, lowmark, himark);
      if rc == OK {
        cells := cells[n := TextCell(at, lowmark - 1 - at, UNSET)];
        WrittenMore(before, item.data);
        assert cells == Linked(was, slot, n) + [TextCell(at, |item.data|, UNSET)];
        cur := cur + [Text(item.data)];
      }
    }

    /** A record of character data, which is to be read. */
    method NewData() returns (ok: bool)
      requires Valid()
      modifies `lowmark, `himark, `cells, `elementptr
      ensures ok <==> old(Used()) + ELEMENT <= cap
      ensures ok ==> Used() == old(Used()) + ELEMENT && 0 <= lowmark <= himark <= cap && FIRST <= lowmark
                     && Written(text[..lowmark]) == old(Written(text[..lowmark]))
      ensures ok ==> SlotIn(old(cells), old(elementptr)) && elementptr == Next(|old(cells)|)
                     && cells == Linked(old(cells), old(elementptr), |old(cells)|) + [TextCell(lowmark, 0, UNSET)]
    {
      hide Placed, PathOk, SlotOf, Written;
      LinkedOn(cells, Written(text[..lowmark]), frames, cur);
      ok := Allot();
      if ok {
        var n := |cells|;
        cells := Linked(cells, elementptr, n) + [TextCell(lowmark, 0, UNSET)];
        elementptr := Next(n);
      }
    }

    /** The item at position i, behind which d is the first that is not a line end. */
    method AddItem(tags: Tags, input: seq<byte>, i: nat, d: nat) returns (rc: int, next: nat)
      requires Valid() && tags.Valid() && text != tags.othertagstext
      requires i <= |input| && d == SkipDelims(input, i) < |input|
      modifies this, text, tags, tags.othertags, tags.othertagstext
      ensures rc == OK || rc == SPACE || rc == SYNTAX
      ensures rc == OK ==> Dealt(tags, old(Store(tags.names, Used())), old(frames), old(cur), ReadItem(input, i), next)
      ensures rc != OK ==> Undone(old(Store(tags.names, Used())), cap, old(frames), old(cur), ReadItem(input, i))
    {
      hide Valid, ReadTag, TagStart, IsEnd, ReadStr, Step, HasAll, Tags.Valid;
      next := d;
      if input[d] != LT {
        rc, next := AddData(tags, input, i, d);
        return;
      }
      var start, endflag := TagAt(input, d + 1);
      if start.NoLabel? {
        return SYNTAX, next;
      }
      var name := NameAt(input, start.end);
      NoTag(input, start.end, endflag);
      if name.NoLabel? {
        return SYNTAX, next;
      }
      NameRead(input, start.end);
      var q := FindSkip(input, name.end);
      if q == |input| {
        return SYNTAX, next;
      }
      if endflag {
        rc, next := EndElement(tags, input, start.end, name.end, q);
      } else {
        rc, next := StartElement(tags, input, start.end, name.end, q);
      }
    }
  }

  /** These claims were met, and this is what is left. */
  ghost predicate Met(st: Store, now: Store, cap: int, cs: seq<Claim>) {
    HasAll(st, cap, cs) && now == TakeAll(st, cs)
  }

  lemma NameRead(s: seq<byte>, i: nat)
    requires i < |s| && ReadName(s, i).Label?
    ensures i < ReadName(s, i).end < |s| && IsName(s[i..ReadName(s, i).end])
  {
  }

  lemma AttrHas(st: Store, cap: int, a: Attr)
    ensures HasAll(st, cap, AttrClaims(a)) <==> Learns(st.names, a.tag) && st.used + ATTRIBUTE + |a.value| + 1 <= cap
    ensures TakeAll(st, AttrClaims(a)) == Store(Learnt(st.names, a.tag), st.used + ATTRIBUTE + |a.value| + 1)
  {
    var cs := AttrClaims(a);
    assert cs[..2] == [cs[0], cs[1]] && cs[..2][..1] == [cs[0]];
    TakeOne(st, cap, cs[0]);
  }

  lemma AttrRead(s: seq<byte>, i: nat, st: Store, cap: int)
    requires i < |s|
    ensures ReadAttr(s, i).AttrList? ==>
              var a := ReadAttr(s, i).attrs[0];
              && (HasAll(st, cap, AttrClaims(a)) <==> Learns(st.names, a.tag) && st.used + ATTRIBUTE + |a.value| + 1 <= cap)
              && TakeAll(st, AttrClaims(a)) == Store(Learnt(st.names, a.tag), st.used + ATTRIBUTE + |a.value| + 1)
    ensures ReadAttr(s, i).AttrList? ==>
              && |ReadAttr(s, i).attrs| == 1 && ReadName(s, i).Label?
              && ReadAttr(s, i).attrs[0].tag == s[i..ReadName(s, i).end]
    ensures ReadName(s, i).NoLabel? ==> ReadAttr(s, i).NoAttrs?
  {
    if ReadAttr(s, i).AttrList? {
      AttrHas(st, cap, ReadAttr(s, i).attrs[0]);
    }
  }

  lemma LastIsElement(cells: seq<Cell>, strings: seq<byte>, frames: seq<Frame>, tag: seq<byte>, attrs: seq<Attr>, before: seq<Node>)
    requires Placed(cells, strings, frames + [Frame(tag, attrs, before)], [])
    ensures cells != [] && cells[|cells| - 1].ElemCell?
  {
    AttrAdded(cells, strings, frames, tag, attrs, before, Attr([], []));
  }

  lemma WrittenMore(before: seq<byte>, v: seq<byte>)
    requires FIRST <= |before|
    ensures Written(before + v + [0]) == Written(before) + v + [0] && |before| == FIRST + |Written(before)|
  {
  }

  lemma NoAttrsYet(s: seq<byte>, q: nat, st: Store, cap: int)
    requires q < |s|
    ensures Met(st, st, cap, AttrsClaims([])) && ReadAttrs(s, q) == Prepend([], ReadAttrs(s, q))
  {
    var a := ReadAttrs(s, q);
    if a.AttrList? {
      assert [] + a.attrs == a.attrs;
    }
  }

  lemma {:induction false} AttrsClaimsBoth(a: seq<Attr>, b: seq<Attr>)
    ensures AttrsClaims(a + b) == AttrsClaims(a) + AttrsClaims(b)
    decreases |b|
  {
    if b == [] {
      assert a + b == a;
    } else {
      var n := |b| - 1;
      assert (a + b)[..|a| + n] == a + b[..n] && (a + b)[|a| + n] == b[n];
      AttrsClaimsBoth(a, b[..n]);
    }
  }

  lemma AttrsStep(s: seq<byte>, i: nat, attrs: seq<Attr>)
    requires i < |s| && IsLower(s[i])
    ensures Prepend(attrs, ReadAttrs(s, i)) == match ReadAttr(s, i)
                                               case NoAttrs => NoAttrs
                                               case AttrList(a, next) => Prepend(attrs + a, ReadAttrs(s, next))
    ensures ReadAttr(s, i).AttrList? ==> |ReadAttr(s, i).attrs| == 1 && i < ReadAttr(s, i).next < |s|
  {
    var a := ReadAttr(s, i);
    if a.AttrList? {
      var more := ReadAttrs(s, a.next);
      if more.AttrList? {
        assert attrs + (a.attrs + more.attrs) == attrs + a.attrs + more.attrs;
      }
    }
  }

  /** One more attribute was had, or cannot be. */
  lemma AttrMet(st: Store, now: Store, later: Store, cap: int, attrs: seq<Attr>, a: Attr)
    requires Met(st, now, cap, AttrsClaims(attrs))
    ensures Met(now, later, cap, AttrClaims(a)) ==> Met(st, later, cap, AttrsClaims(attrs + [a]))
    ensures !HasAll(now, cap, AttrClaims(a)) ==> !HasAll(st, cap, AttrsClaims(attrs + [a]))
  {
    assert (attrs + [a])[..|attrs|] == attrs;
    TakeBoth(st, cap, AttrsClaims(attrs), AttrClaims(a));
  }

  lemma LacksMore(st: Store, cap: int, attrs: seq<Attr>, more: seq<Attr>)
    requires !HasAll(st, cap, AttrsClaims(attrs))
    ensures !HasAll(st, cap, AttrsClaims(attrs + more))
  {
    AttrsClaimsBoth(attrs, more);
    TakeBoth(st, cap, AttrsClaims(attrs), AttrsClaims(more));
  }

  /** An item that is not one, or for which there is no room, or that does not fit the open elements. */
  ghost predicate Undone(st: Store, cap: int, fs: seq<Frame>, ns: seq<Node>, item: Item) {
    item.Bad? || !HasAll(st, cap, ItemClaims(item)) || Step(fs, ns, item).Failed?
  }

  lemma OpeningAt(cells: seq<Cell>, strings: seq<byte>, frames: seq<Frame>, f: Frame)
    requires Placed(cells, strings, frames + [f], [])
    ensures |cells| == Base(frames + [f]) && SlotOf(frames + [f], []) == Sub(|cells| - 1)
  {
    LinkedOn(cells, strings, frames + [f], []);
  }

  lemma PathLength(path: seq<nat>, frames: seq<Frame>)
    requires PathOk(path, frames)
    ensures |path| == |frames| <= MAXDEPTH
  {
  }

  lemma TagRead(s: seq<byte>, p: nat, e: nat, q: nat)
    requires p < |s| && ReadName(s, p) == Label(e) && q == Skip(s, e) < |s|
    ensures p < e && IsName(s[p..e])
    ensures ReadTag(s, p, false) == match ReadAttrs(s, q)
                                    case NoAttrs => Bad
                                    case AttrList(attrs, r) => ReadClose(s, s[p..e], attrs, r)
    ensures ReadTag(s, p, true) == if s[q] == GT then End(s[p..e], q + 1) else Bad
  {
  }

  lemma StartHas(st: Store, cap: int, tag: seq<byte>, attrs: seq<Attr>)
    ensures var mid := Store(Learnt(st.names, tag), st.used + ELEMENT);
            && (HasAll(st, cap, StartClaims(tag, attrs))
                <==> Learns(st.names, tag) && mid.used <= cap && HasAll(mid, cap, AttrsClaims(attrs)))
            && TakeAll(st, StartClaims(tag, attrs)) == TakeAll(mid, AttrsClaims(attrs))
  {
    var cs := [Intern(tag), Space(ELEMENT)];
    TakeBoth(st, cap, cs, AttrsClaims(attrs));
    TakeOne(st, cap, cs[0]);
    assert cs[..1] == [cs[0]];
  }

  lemma NothingMet(st: Store, cap: int)
    ensures Met(st, st, cap, [])
  {
  }

  lemma TextHas(st: Store, cap: int, data: seq<byte>)
    ensures HasAll(st, cap, TextClaims(data)) <==> st.used + ELEMENT + |data| + 1 <= cap
    ensures TakeAll(st, TextClaims(data)) == st.(used := st.used + ELEMENT + |data| + 1)
  {
    var cs := TextClaims(data);
    assert cs[..1] == [cs[0]];
    TakeOne(st, cap, cs[0]);
  }

  lemma StepText(fs: seq<Frame>, ns: seq<Node>, item: Item)
    requires item.Chars?
    ensures Step(fs, ns, item) == State(fs, ns + [Text(item.data)]) && ItemClaims(item) == TextClaims(item.data)
  {
  }

  lemma NoTag(s: seq<byte>, p: nat, endflag: bool)
    requires p < |s|
    ensures ReadName(s, p).NoLabel? || Skip(s, ReadName(s, p).end) == |s| ==> ReadTag(s, p, endflag) == Bad
  {
  }

  // --- the whole text -------------------------------------------------------------------------------------------------------

  /** Nothing has been made if and only if there is no record. */
  lemma NothingMade(cells: seq<Cell>, strings: seq<byte>, frames: seq<Frame>, cur: seq<Node>)
    requires Placed(cells, strings, frames, cur)
    ensures cells == [] <==> frames == [] && cur == []
  {
    hide Front, Lay;
    LinkedOn(cells, strings, frames, cur);
  }

  lemma ParseEnd(s: seq<byte>, i: nat, frames: seq<Frame>, cur: seq<Node>)
    requires i <= |s| && SkipDelims(s, i) == |s|
    ensures Parse(s, i, frames, cur) == if frames == [] && cur != [] then Tree(cur) else NoTree
  {
  }

  /** An item more has been dealt with. */
  lemma ItemMet(st: Store, now: Store, later: Store, cap: int, frames: seq<Frame>, cur: seq<Node>, item: Item)
    requires Met(st, now, cap, ClaimsOf(frames, cur)) && Met(now, later, cap, ItemClaims(item)) && Step(frames, cur, item).State?
    ensures var next := Step(frames, cur, item); Met(st, later, cap, ClaimsOf(next.frames, next.cur))
  {
    hide HasAll, TakeAll, ClaimsOf, ItemClaims, Step;
    StepClaims(frames, cur, item);
    TakeBoth(st, cap, ClaimsOf(frames, cur), ItemClaims(item));
  }

  /** An item that cannot be dealt with spoils the whole. */
  lemma ItemUndone(s: seq<byte>, i: nat, frames: seq<Frame>, cur: seq<Node>, st: Store, now: Store, cap: int)
    requires i <= |s| && SkipDelims(s, i) < |s| && Met(st, now, cap, ClaimsOf(frames, cur))
    requires Undone(now, cap, frames, cur, ReadItem(s, i))
    ensures match Parse(s, i, frames, cur) case NoTree => true case Tree(nodes) => !HasAll(st, cap, Claims(nodes))
  {
    hide HasAll, TakeAll, ClaimsOf, ItemClaims, ReadItem, SkipDelims, Parse;
    ParseStep(s, i, frames, cur, ReadItem(s, i));
    if !HasAll(now, cap, ItemClaims(ReadItem(s, i))) {
      CannotHave(s, i, frames, cur, st, cap, ReadItem(s, i));
    }
  }

  lemma NothingYet(s: seq<byte>, st: Store, cap: int)
    ensures Met(st, st, cap, ClaimsOf([], []))
  {
  }

  /** The text says a tree for which there is room, and whose names can be entered. */
  ghost predicate CanBuild(names: seq<seq<byte>>, cap: int, t: Tree) {
    t.Tree? && Room(Claims(t.nodes)) <= cap && Interns(names, Claims(t.nodes))
  }

  /** xmlparse: the tree that a text says, as linked records and strings in a buffer. */
  method ParseText(tags: Tags, input: seq<byte>, size: nat) returns (code: int, build: Build)
    requires tags.Valid()
    modifies tags, tags.othertags, tags.othertagstext
    ensures fresh(build) && (code == OK || code == SPACE || code == SYNTAX)
    ensures code == OK <==> CanBuild(old(tags.names), size - size % 8, Parse(input, 0, [], []))
    ensures code == OK ==>
              && Keeps(build.cells, build.text[..], 0, Parse(input, 0, [], []).nodes, NIL) && build.text.Length == size
              && build.lowmark <= build.himark == size - size % 8 + build.lowmark - Room(Claims(Parse(input, 0, [], []).nodes))
              && tags.Valid() && tags.names == TakeAll(Store(old(tags.names), 0), Claims(Parse(input, 0, [], []).nodes)).names
  {
    hide Placed, PathOk, SlotOf, ReadItem, SkipDelims, Parse, HasAll, TakeAll, Claims, ClaimsOf, Keeps, Step, Interns, Room, Tags.Valid;
    build := new Build(size);
    ghost var names := tags.names;
    ghost var st, cap := Store(names, 0), build.cap;
    ghost var whole := Parse(input, 0, [], []);
    var pos := 0;
    NothingYet(input, st, cap);
    if whole.Tree? {
      HasAllIs(names, 0, cap, Claims(whole.nodes));
    }
    while pos < |input|
      invariant pos <= |input| && build.Valid() && tags.Valid() && fresh(build) && fresh(build.text) && build.cap == cap
      invariant build.text.Length == size
      invariant Met(st, Store(tags.names, build.Used()), cap, ClaimsOf(build.frames, build.cur))
      invariant whole == Parse(input, pos, build.frames, build.cur)
    {
      ghost var now, fs, ns := Store(tags.names, build.Used()), build.frames, build.cur;
      var d := FindDelims(input, pos);
      if d == |input| {
        break;
      }
      ghost var item := ReadItem(input, pos);
      ParseStep(input, pos, fs, ns, item);
      var rc, next := build.AddItem(tags, input, pos, d);
      if rc != OK {
        ItemUndone(input, pos, fs, ns, st, now, cap);
        return rc, build;
      }
      ItemMet(st, now, Store(tags.names, build.Used()), cap, fs, ns, item);
      pos := next;
    }
    AtEnd(input, pos);
    ParseEnd(input, pos, build.frames, build.cur);
    NothingMade(build.cells, Written(build.text[..build.lowmark]), build.frames, build.cur);
    PathLength(build.outputpath, build.frames);
    if build.lowmark == 0 || |build.outputpath| != 0 {
      return SYNTAX, build;
    }
    OuterClaims(build.cur);
    StringsInPlace(build.text[..], build.lowmark);
    TreeKept(build.cells, build.text[..], Written(build.text[..build.lowmark]), build.cur);
    build.cells := Linked(build.cells, build.elementptr, NIL);
    code := OK;
  }

  lemma AtEnd(s: seq<byte>, i: nat)
    requires i <= |s|
    ensures i == |s| ==> SkipDelims(s, i) == |s|
  {
  }

  lemma StringsInPlace(t: seq<byte>, low: nat)
    requires FIRST <= low <= |t|
    ensures var s := Written(t[..low]); FIRST + |s| <= |t| && t[FIRST..FIRST + |s|] == s
  {
  }

  // --- there and back -------------------------------------------------------------------------------------------------------

  lemma {:induction false} ValidHeld(nodes: seq<Node>)
    requires NodesOk(nodes)
    ensures XmlFlatten.Held(nodes)
    decreases nodes
  {
    if nodes != [] {
      ValidHeld(nodes[1..]);
      if nodes[0].Elem? {
        ValidHeld(nodes[0].kids);
      }
    }
  }

  /** A valid tree, written and read, is the same tree, exactly if it is not too deep, does not end in character data, and
      there is room for its text, for its records and strings, and for its names. */
  method WriteAndRead(tags: Tags, tree: seq<Node>, cb: nat, size: nat) returns (code: int, build: Build?)
    requires tags.Valid() && tree != [] && NodesOk(tree)
    modifies tags, tags.othertags, tags.othertagstext
    ensures code == OK <==>
              && Depth(tree) <= MAXDEPTH && !EndsInText(tree) && |Print(tree)| <= cb
              && Room(Claims(tree)) <= size - size % 8 && Interns(old(tags.names), Claims(tree))
    ensures code == OK ==> build != null && fresh(build) && Keeps(build.cells, build.text[..], 0, tree, NIL)
  {
    hide Print, Parse, NodesOk, Depth, Claims, Keeps, Interns, Room, Tags.Valid;
    var output := new byte[cb];
    ValidHeld(tree);
    PrintThenParse(tree);
    var rc := XmlFlatten.Flatten(tree, output);
    if rc < 0 {
      return rc, null;
    }
    code, build := ParseText(tags, output[..rc], size);
  }
}
