/**
  The walk of the attachment splitter over the multipart tree of a raw message.

  Header parsing is a parameter.  Collected is the walk as a function, with the
  delimiters of a region given declaratively; the Walk class runs the loops of the
  source and is proved to compute it.
*/
module AttWalk {

  import opened Wrappers

  type Byte = x: int | 0 <= x < 256

  type Bytes = seq<Byte>

  const MAX_DEPTH := 16
  const MAX_PARTS := 1000

  const LF: Byte := 10
  const CR: Byte := 13
  const BLANK_LINE: Bytes := [13, 10, 13, 10]
  const DASHES: Bytes := [45, 45]

  /**
    What mime.ParseMediaType reads out of one header block: the media type with its
    boundary and name, and the disposition with its filename; empty where absent.
  */
  datatype Header = Header(ct: string, boundary: Bytes, name: string, disp: string, filename: string)

  type Parser = Bytes -> Header

  datatype Span = Span(start: nat, end: nat, ct: string, name: string)

  const MULTIPART := "multipart/"

  predicate IsMultipart(h: Header) {
    MULTIPART <= h.ct && h.boundary != []
  }

  /** ASCII letters only: no other letter folds to one of "attachment". */
  function Fold(c: char): char {
    if 'A' <= c <= 'Z' then c - 'A' + 'a' else c
  }

  predicate EqualFold(a: string, b: string) {
    |a| == |b| && forall i :: 0 <= i < |a| ==> Fold(a[i]) == Fold(b[i])
  }

  /** The message, and how its parts are read. */
  datatype Msg = Msg(raw: Bytes, minSize: int, parse: Parser)

  // ---------------------------------------------------------------- searching

  predicate Matches(raw: Bytes, pat: Bytes, p: int, e: int) {
    0 <= p && p + |pat| <= e <= |raw| && raw[p..p + |pat|] == pat
  }

  /** bytes.Index on raw[i:e], as a position in raw. */
  function Find(raw: Bytes, pat: Bytes, i: nat, e: nat): (r: Option<nat>)
    requires i <= e <= |raw|
    ensures r.Some? ==> i <= r.value <= e
    decreases e - i
  {
    if Matches(raw, pat, i, e) then Some(i)
    else if i == e then None
    else Find(raw, pat, i + 1, e)
  }

  lemma {:induction false} FindFirst(raw: Bytes, pat: Bytes, i: nat, e: nat)
    requires i <= e <= |raw|
    ensures var r := Find(raw, pat, i, e);
            && (r.Some? ==> i <= r.value && Matches(raw, pat, r.value, e))
            && forall q :: i <= q <= e && (r.Some? ==> q < r.value) ==> !Matches(raw, pat, q, e)
    decreases e - i
  {
    if !Matches(raw, pat, i, e) && i < e {
      FindFirst(raw, pat, i + 1, e);
    }
  }

  /** A delimiter: the pattern at the start of the region or of a line in it. */
  predicate IsDelim(raw: Bytes, bs: nat, be: nat, pat: Bytes, p: int) {
    bs <= p && Matches(raw, pat, p, be) && (p == bs || (p <= |raw| && raw[p - 1] == LF))
  }

  /** Every delimiter at or after i, in order: each position is looked at. */
  function Delims(raw: Bytes, bs: nat, be: nat, pat: Bytes, i: nat): seq<nat>
    requires i <= be
    decreases be - i
  {
    if i == be then []
    else (if IsDelim(raw, bs, be, pat, i) then [i] else []) + Delims(raw, bs, be, pat, i + 1)
  }

  predicate Ascending(ds: seq<nat>) {
    forall k, l :: 0 <= k < l < |ds| ==> ds[k] < ds[l]
  }

  lemma {:induction false} DelimsExact(raw: Bytes, bs: nat, be: nat, pat: Bytes, i: nat)
    requires i <= be
    ensures var ds := Delims(raw, bs, be, pat, i);
            && Ascending(ds)
            && forall p :: p in ds <==> i <= p < be && IsDelim(raw, bs, be, pat, p)
    decreases be - i
  {
    if i < be {
      DelimsExact(raw, bs, be, pat, i + 1);
      var rest := Delims(raw, bs, be, pat, i + 1);
      if IsDelim(raw, bs, be, pat, i) {
        var ds := [i] + rest;
        assert ds == Delims(raw, bs, be, pat, i);
        forall k, l | 0 <= k < l < |ds|
          ensures ds[k] < ds[l]
        {
          assert ds[l] == rest[l - 1] && rest[l - 1] in rest;
          assert k > 0 ==> ds[k] == rest[k - 1];
        }
      } else {
        assert Delims(raw, bs, be, pat, i) == rest;
      }
    }
  }

  lemma {:induction false} SkipTo(raw: Bytes, bs: nat, be: nat, pat: Bytes, i: nat, j: nat)
    requires i <= j <= be
    requires forall q :: i <= q < j ==> !IsDelim(raw, bs, be, pat, q)
    ensures Delims(raw, bs, be, pat, i) == Delims(raw, bs, be, pat, j)
    decreases j - i
  {
    if i < j {
      SkipTo(raw, bs, be, pat, i + 1, j);
    }
  }

  /** Where the search goes on after the pattern was seen at p: the next line, or the end. */
  function NextLine(raw: Bytes, p: nat, be: nat): nat
    requires p <= be <= |raw|
  {
    var nl := Find(raw, [LF], p, be);
    if nl.None? then be else nl.value + 1
  }

  /** The rest of a line holds no line start. */
  lemma NoLineStart(raw: Bytes, bs: nat, be: nat, pat: Bytes, p: nat, q: nat)
    requires bs <= p < be <= |raw| && p < q < NextLine(raw, p, be)
    ensures !IsDelim(raw, bs, be, pat, q)
  {
    FindFirst(raw, [LF], p, be);
    assert !Matches(raw, [LF], q - 1, be);
    assert raw[q - 1..q] == [raw[q - 1]];
  }

  lemma NextLineBounds(raw: Bytes, p: nat, be: nat)
    requires p < be <= |raw|
    ensures p < NextLine(raw, p, be) <= be
  {
    FindFirst(raw, [LF], p, be);
  }

  /** From line to line no delimiter is passed over. */
  lemma LineStep(raw: Bytes, bs: nat, be: nat, pat: Bytes, i: nat)
    requires bs <= i < be <= |raw| && pat != []
    ensures var p := Find(raw, pat, i, be);
            if p.None? then Delims(raw, bs, be, pat, i) == []
            else
              && p.value < be && p.value < NextLine(raw, p.value, be) <= be
              && Delims(raw, bs, be, pat, i)
                 == (if p.value == bs || raw[p.value - 1] == LF then [p.value] else [])
                    + Delims(raw, bs, be, pat, NextLine(raw, p.value, be))
  {
    FindFirst(raw, pat, i, be);
    var p := Find(raw, pat, i, be);
    if p.None? {
      SkipTo(raw, bs, be, pat, i, be);
    } else {
      SkipTo(raw, bs, be, pat, i, p.value);
      NextLineBounds(raw, p.value, be);
      var e := NextLine(raw, p.value, be);
      forall q | p.value + 1 <= q < e
        ensures !IsDelim(raw, bs, be, pat, q)
      {
        NoLineStart(raw, bs, be, pat, p.value, q);
      }
      SkipTo(raw, bs, be, pat, p.value + 1, e);
    }
  }

  // ----------------------------------------------------------------- one part

  datatype Part = Part(headerStart: nat, bodyStart: nat, bodyEnd: nat)

  /** The line break before a delimiter belongs to the delimiter. */
  function Trimmed(raw: Bytes, partStart: nat, next: nat): (e: nat)
    requires partStart <= next <= |raw|
    ensures partStart <= e <= next
  {
    if next - 2 >= partStart && raw[next - 2] == CR && raw[next - 1] == LF then next - 2
    else if next - 1 >= partStart && raw[next - 1] == LF then next - 1
    else next
  }

  /** Two delimiters of a region that follow each other. */
  predicate Gap(raw: Bytes, be: nat, d: nat, next: nat) {
    d < next <= be <= |raw| && raw[next - 1] == LF
  }

  /** The part between the delimiters at d and next, if it has a header and a body. */
  function PartAt(raw: Bytes, be: nat, d: nat, next: nat): (r: Option<Part>)
    requires Gap(raw, be, d, next)
    ensures r.Some? ==> d < r.value.headerStart < r.value.bodyStart <= r.value.bodyEnd <= next
  {
    FindFirst(raw, [LF], d, be);
    assert Matches(raw, [LF], next - 1, be);
    var nl := Find(raw, [LF], d, be);
    if nl.None? then None
    else
      var partStart := nl.value + 1;
      var bodyEnd := Trimmed(raw, partStart, next);
      if partStart >= bodyEnd then None
      else
        FindFirst(raw, BLANK_LINE, partStart, bodyEnd);
        var hi := Find(raw, BLANK_LINE, partStart, bodyEnd);
        if hi.None? then None else Some(Part(partStart, hi.value + 4, bodyEnd))
  }

  // ------------------------------------------------------------ the whole walk

  /** scanned adds up the lengths of the regions searched for delimiters. */
  datatype Found = Found(spans: seq<Span>, delims: nat, over: bool, scanned: nat)

  predicate Region(raw: Bytes, bs: nat, be: nat, ds: seq<nat>) {
    && bs <= be <= |raw| && Ascending(ds)
    && (forall k :: 0 <= k < |ds| ==> bs <= ds[k] < be)
    && (forall k :: 0 < k < |ds| ==> Gap(raw, be, ds[k - 1], ds[k]))
  }

  lemma DelimsRegion(raw: Bytes, bs: nat, be: nat, pat: Bytes)
    requires bs <= be <= |raw|
    ensures Region(raw, bs, be, Delims(raw, bs, be, pat, bs))
  {
    var ds := Delims(raw, bs, be, pat, bs);
    DelimsExact(raw, bs, be, pat, bs);
    forall k | 0 <= k < |ds|
      ensures bs <= ds[k] < be && IsDelim(raw, bs, be, pat, ds[k])
    {
      assert ds[k] in ds;
    }
    forall k | 0 < k < |ds|
      ensures Gap(raw, be, ds[k - 1], ds[k])
    {
      assert IsDelim(raw, bs, be, pat, ds[k]) && bs <= ds[k - 1] < ds[k];
    }
  }

  /** A part that is not a multipart: extracted, or left in place. */
  function Leaf(h: Header, p: Part, minSize: int): seq<Span> {
    var name := if h.filename == "" then h.name else h.filename;
    if (EqualFold(h.disp, "attachment") || name != "") && p.bodyEnd - p.bodyStart >= minSize
    then [Span(p.bodyStart, p.bodyEnd, h.ct, name)] else []
  }

  function Joined(a: Found, b: Found): Found {
    Found(a.spans + b.spans, b.delims, b.over, a.scanned + b.scanned)
  }

  /** collect on the region bs..be; nothing is kept of a walk that goes over a limit. */
  function Collected(m: Msg, bs: nat, be: nat, boundary: Bytes, delims: nat, depth: nat): Found
    requires bs <= be <= |m.raw| && depth <= MAX_DEPTH + 1
    decreases MAX_DEPTH + 1 - depth, 2, 0
  {
    if depth > MAX_DEPTH then Found([], delims, true, 0)
    else
      var ds := Delims(m.raw, bs, be, DASHES + boundary, bs);
      if delims + |ds| > MAX_PARTS then Found([], MAX_PARTS + 1, true, be - bs)
      else
        DelimsRegion(m.raw, bs, be, DASHES + boundary);
        var r := Parts(m, bs, be, ds, 0, delims + |ds|, depth);
        r.(scanned := r.scanned + (be - bs))
  }

  function Parts(m: Msg, bs: nat, be: nat, ds: seq<nat>, k: nat, delims: nat, depth: nat): Found
    requires Region(m.raw, bs, be, ds) && k <= |ds| && depth <= MAX_DEPTH
    decreases MAX_DEPTH + 1 - depth, 1, |ds| - k
  {
    if k + 1 >= |ds| then Found([], delims, false, 0)
    else
      assert Gap(m.raw, be, ds[k + 1 - 1], ds[k + 1]);
      var one := OnePart(m, be, ds[k], ds[k + 1], delims, depth);
      if one.over then one.(spans := [])
      else Joined(one, Parts(m, bs, be, ds, k + 1, one.delims, depth))
  }

  function OnePart(m: Msg, be: nat, d: nat, next: nat, delims: nat, depth: nat): Found
    requires Gap(m.raw, be, d, next) && depth <= MAX_DEPTH
    decreases MAX_DEPTH + 1 - depth, 0, 0
  {
    match PartAt(m.raw, be, d, next)
    case None => Found([], delims, false, 0)
    case Some(p) =>
      var h := m.parse(m.raw[p.headerStart..p.bodyStart]);
      if IsMultipart(h) then
        Collected(m, p.bodyStart, p.bodyEnd, h.boundary, delims, depth + 1)
      else Found(Leaf(h, p, m.minSize), delims, false, 0)
  }

  /** The part loop at k: acc is already out, and the parts from k on give the rest of total. */
  ghost predicate Progress(m: Msg, bs: nat, be: nat, ds: seq<nat>, k: nat, delims: nat, depth: nat, total: Found,
                           acc: seq<Span>) {
    && Region(m.raw, bs, be, ds) && k <= |ds| && depth <= MAX_DEPTH
    && var rest := Parts(m, bs, be, ds, k, delims, depth);
       total.over == rest.over && total.delims == rest.delims && (!rest.over ==> total.spans == acc + rest.spans)
  }

  lemma Advance(m: Msg, bs: nat, be: nat, ds: seq<nat>, k: nat, delims: nat, depth: nat, total: Found, acc: seq<Span>)
    requires Progress(m, bs, be, ds, k, delims, depth, total, acc)
    ensures k + 1 >= |ds| ==> !total.over && total.delims == delims && total.spans == acc
    ensures k + 1 < |ds| ==> Gap(m.raw, be, ds[k], ds[k + 1])
    ensures k + 1 < |ds| ==>
              var one := OnePart(m, be, ds[k], ds[k + 1], delims, depth);
              if one.over then total.over && total.delims == one.delims
              else Progress(m, bs, be, ds, k + 1, one.delims, depth, total, acc + one.spans)
  {
    if k + 1 < |ds| {
      assert Gap(m.raw, be, ds[k + 1 - 1], ds[k + 1]);
      var one := OnePart(m, be, ds[k], ds[k + 1], delims, depth);
      if !one.over {
        var rest := Parts(m, bs, be, ds, k + 1, one.delims, depth);
        assert acc + (one.spans + rest.spans) == acc + one.spans + rest.spans;
      }
    }
  }

  lemma SpanAssoc(a: seq<Span>, b: seq<Span>, c: seq<Span>)
    ensures a + b + c == a + (b + c)
  {
  }

  class Walk {
    var delims: nat
    var over: bool
    var out: seq<Span>

    constructor ()
      ensures delims == 0 && !over && out == []
    {
      delims, over, out := 0, false, [];
    }

    /** The walk's state after work that found r. */
    ghost predicate Took(r: Found, before: seq<Span>)
      reads this
    {
      && over == r.over && delims == r.delims
      && (!over ==> out == before + r.spans && delims <= MAX_PARTS)
    }

    method Collect(m: Msg, bs: nat, be: nat, boundary: Bytes, depth: nat)
      requires bs <= be <= |m.raw| && depth <= MAX_DEPTH + 1
      requires !over ==> delims <= MAX_PARTS
      modifies this
      ensures old(over) ==> over && delims == old(delims) && out == old(out)
      ensures !old(over) ==> Took(Collected(m, bs, be, boundary, old(delims), depth), old(out))
      decreases MAX_DEPTH + 1 - depth, 2
    {
      if over {
        return;
      }
      if depth > MAX_DEPTH {
        over := true;
        return;
      }
      var ds := FindDelims(m.raw, bs, be, DASHES + boundary);
      if over {
        return;
      }
      DelimsRegion(m.raw, bs, be, DASHES + boundary);
      CollectParts(m, bs, be, ds, depth);
    }

    method CollectParts(m: Msg, bs: nat, be: nat, ds: seq<nat>, depth: nat)
      requires Region(m.raw, bs, be, ds) && depth <= MAX_DEPTH
      requires !over && delims <= MAX_PARTS
      modifies this
      ensures Took(Parts(m, bs, be, ds, 0, old(delims), depth), old(out))
      decreases MAX_DEPTH + 1 - depth, 1
    {
      ghost var before, total := out, Parts(m, bs, be, ds, 0, delims, depth);
      ghost var acc: seq<Span> := [];
      var k := 0;
      while k + 1 < |ds|
        invariant 0 <= k && !over && delims <= MAX_PARTS && out == before + acc
        invariant Progress(m, bs, be, ds, k, delims, depth, total, acc)
      {
        Advance(m, bs, be, ds, k, delims, depth, total, acc);
        ghost var found := OnePart(m, be, ds[k], ds[k + 1], delims, depth).spans;
        SpanAssoc(before, acc, found);
        CollectPart(m, be, ds[k], ds[k + 1], depth);
        if over {
          return;
        }
        acc := acc + found;
        k := k + 1;
      }
      Advance(m, bs, be, ds, k, delims, depth, total, acc);
    }

    method CollectPart(m: Msg, be: nat, d: nat, next: nat, depth: nat)
      requires Gap(m.raw, be, d, next) && depth <= MAX_DEPTH
      requires !over && delims <= MAX_PARTS
      modifies this
      ensures Took(OnePart(m, be, d, next, old(delims), depth), old(out))
      decreases MAX_DEPTH + 1 - depth, 0
    {
      var p := PartAt(m.raw, be, d, next);
      if p.None? {
        return;
      }
      var h := m.parse(m.raw[p.value.headerStart..p.value.bodyStart]);
      if IsMultipart(h) {
        Collect(m, p.value.bodyStart, p.value.bodyEnd, h.boundary, depth + 1);
      } else {
        out := out + Leaf(h, p.value, m.minSize);
      }
    }

    /** The delimiter search: skips from line to line, and stops when the count is exceeded. */
    method FindDelims(raw: Bytes, bs: nat, be: nat, pat: Bytes) returns (ds: seq<nat>)
      requires bs <= be <= |raw| && pat != [] && !over && delims <= MAX_PARTS
      modifies this
      ensures out == old(out)
      ensures var all := Delims(raw, bs, be, pat, bs);
              && (over <==> old(delims) + |all| > MAX_PARTS)
              && (over ==> delims == MAX_PARTS + 1)
              && (!over ==> ds == all && delims == old(delims) + |all|)
    {
      ds := [];
      var i := bs;
      ghost var all, was := Delims(raw, bs, be, pat, bs), delims;
      while i < be
        invariant bs <= i <= be
        invariant !over && out == old(out) && delims == was + |ds| <= MAX_PARTS
        invariant ds + Delims(raw, bs, be, pat, i) == all
        decreases be - i
      {
        LineStep(raw, bs, be, pat, i);
        var j := Find(raw, pat, i, be);
        if j.None? {
          break;
        }
        var p, next := j.value, NextLine(raw, j.value, be);
        if p == bs || raw[p - 1] == LF {
          ConcatAssoc(ds, [p], Delims(raw, bs, be, pat, next));
          ds := ds + [p];
          delims := delims + 1;
          if delims > MAX_PARTS {
            over := true;
            return;
          }
        } else {
          ConcatAssoc(ds, [], Delims(raw, bs, be, pat, next));
        }
        i := next;
      }
    }
  }

  lemma ConcatAssoc(a: seq<nat>, b: seq<nat>, c: seq<nat>)
    ensures a + (b + c) == (a + b) + c && (b == [] ==> a + b == a)
  {
  }

  // ------------------------------------------------------- what the walk finds

  /** Spans inside lo..hi, in order, with at least a byte between neighbours. */
  predicate Apart(spans: seq<Span>, lo: nat, hi: nat) {
    && (forall i :: 0 <= i < |spans| ==> lo <= spans[i].start <= spans[i].end <= hi)
    && (forall i, j :: 0 <= i < j < |spans| ==> spans[i].end < spans[j].start)
  }

  lemma ApartConcat(a: seq<Span>, b: seq<Span>, lo: nat, m: nat, hi: nat)
    requires Apart(a, lo, m) && Apart(b, m + 1, hi) && lo <= m <= hi
    ensures Apart(a + b, lo, hi)
  {
  }

  lemma {:induction false} CollectedApart(m: Msg, bs: nat, be: nat, boundary: Bytes, delims: nat, depth: nat)
    requires bs <= be <= |m.raw| && depth <= MAX_DEPTH + 1
    ensures Apart(Collected(m, bs, be, boundary, delims, depth).spans, bs, be)
    decreases MAX_DEPTH + 1 - depth, 2, 0
  {
    if depth <= MAX_DEPTH {
      var ds := Delims(m.raw, bs, be, DASHES + boundary, bs);
      DelimsRegion(m.raw, bs, be, DASHES + boundary);
      PartsApart(m, bs, be, ds, 0, delims + |ds|, depth);
    }
  }

  lemma {:induction false} PartsApart(m: Msg, bs: nat, be: nat, ds: seq<nat>, k: nat, delims: nat, depth: nat)
    requires Region(m.raw, bs, be, ds) && k <= |ds| && depth <= MAX_DEPTH
    ensures Apart(Parts(m, bs, be, ds, k, delims, depth).spans, if k < |ds| then ds[k] + 1 else be, be)
    decreases MAX_DEPTH + 1 - depth, 1, |ds| - k
  {
    if k + 1 < |ds| {
      assert Gap(m.raw, be, ds[k + 1 - 1], ds[k + 1]);
      var one := OnePart(m, be, ds[k], ds[k + 1], delims, depth);
      OneApart(m, be, ds[k], ds[k + 1], delims, depth);
      if !one.over {
        PartsApart(m, bs, be, ds, k + 1, one.delims, depth);
        var rest := Parts(m, bs, be, ds, k + 1, one.delims, depth);
        ApartConcat(one.spans, rest.spans, ds[k] + 1, ds[k + 1], be);
      }
    }
  }

  lemma {:induction false} OneApart(m: Msg, be: nat, d: nat, next: nat, delims: nat, depth: nat)
    requires Gap(m.raw, be, d, next) && depth <= MAX_DEPTH
    ensures Apart(OnePart(m, be, d, next, delims, depth).spans, d + 1, next)
    decreases MAX_DEPTH + 1 - depth, 0, 0
  {
    var p := PartAt(m.raw, be, d, next);
    if p.Some? {
      var h := m.parse(m.raw[p.value.headerStart..p.value.bodyStart]);
      if IsMultipart(h) {
        CollectedApart(m, p.value.bodyStart, p.value.bodyEnd, h.boundary, delims, depth + 1);
      }
    }
  }

  /** Within the limits: r counted at most MAX_PARTS + 1 delimiters and searched at most `work` bytes. */
  predicate Bounded(r: Found, work: int) {
    r.delims <= MAX_PARTS + 1 && (!r.over ==> r.delims <= MAX_PARTS) && r.scanned <= work
  }

  /** The regions searched add up to at most the nesting left times the region's length. */
  lemma {:induction false} CollectedBounded(m: Msg, bs: nat, be: nat, boundary: Bytes, delims: nat, depth: nat)
    requires bs <= be <= |m.raw| && delims <= MAX_PARTS && depth <= MAX_DEPTH + 1
    ensures Bounded(Collected(m, bs, be, boundary, delims, depth), (MAX_DEPTH + 1 - depth) * (be - bs))
    decreases MAX_DEPTH + 1 - depth, 2, 0
  {
    if depth <= MAX_DEPTH {
      var ds := Delims(m.raw, bs, be, DASHES + boundary, bs);
      var room := MAX_DEPTH - depth;
      MulStep(room, be - bs);
      assert (MAX_DEPTH + 1 - depth) * (be - bs) == (room + 1) * (be - bs);
      if delims + |ds| <= MAX_PARTS {
        DelimsRegion(m.raw, bs, be, DASHES + boundary);
        PartsBounded(m, bs, be, ds, 0, delims + |ds|, depth);
        MulMono(room, be - From(ds, 0, be), be - bs);
      }
    }
  }

  function From(ds: seq<nat>, k: nat, be: nat): nat { if k < |ds| then ds[k] else be }

  lemma {:induction false} PartsBounded(m: Msg, bs: nat, be: nat, ds: seq<nat>, k: nat, delims: nat, depth: nat)
    requires Region(m.raw, bs, be, ds) && k <= |ds| && delims <= MAX_PARTS && depth <= MAX_DEPTH
    ensures Bounded(Parts(m, bs, be, ds, k, delims, depth), (MAX_DEPTH - depth) * (be - From(ds, k, be)))
    decreases MAX_DEPTH + 1 - depth, 1, |ds| - k
  {
    var room := MAX_DEPTH - depth;
    if k + 1 >= |ds| {
      MulMono(room, 0, be - From(ds, k, be));
    } else {
      assert Gap(m.raw, be, ds[k + 1 - 1], ds[k + 1]);
      var one := OnePart(m, be, ds[k], ds[k + 1], delims, depth);
      OneBounded(m, be, ds[k], ds[k + 1], delims, depth);
      RoomSplit(room, ds[k], ds[k + 1], be);
      if !one.over {
        PartsBounded(m, bs, be, ds, k + 1, one.delims, depth);
      }
    }
  }

  lemma {:induction false} OneBounded(m: Msg, be: nat, d: nat, next: nat, delims: nat, depth: nat)
    requires Gap(m.raw, be, d, next) && delims <= MAX_PARTS && depth <= MAX_DEPTH
    ensures Bounded(OnePart(m, be, d, next, delims, depth), (MAX_DEPTH - depth) * (next - d))
    decreases MAX_DEPTH + 1 - depth, 0, 0
  {
    var room := MAX_DEPTH - depth;
    MulMono(room, 0, next - d);
    var p := PartAt(m.raw, be, d, next);
    if p.Some? {
      var h := m.parse(m.raw[p.value.headerStart..p.value.bodyStart]);
      if IsMultipart(h) {
        CollectedBounded(m, p.value.bodyStart, p.value.bodyEnd, h.boundary, delims, depth + 1);
        MulMono(room, p.value.bodyEnd - p.value.bodyStart, next - d);
      }
    }
  }

  lemma MulMono(c: nat, a: int, b: int)
    requires a <= b
    ensures c * a <= c * b
  {
  }

  lemma MulStep(c: nat, a: nat)
    ensures (c + 1) * a == c * a + a && c * a >= 0
  {
  }

  lemma RoomSplit(c: nat, i: int, j: int, k: int)
    requires i <= j <= k
    ensures c * (j - i) + c * (k - j) == c * (k - i) && 0 <= c * (k - j)
  {
  }
}
