/**
  Which parts of a message the attachment splitter cuts out, said on the bytes and
  not on the walk: chains of nested multipart bodies, the parts between neighbouring
  delimiters, and what their headers say.  SpansIff proves that the walk finds those
  parts, and OverIff when it gives up.
*/
module AttParts {

  import opened AttWalk
  import opened Wrappers

  /** A multipart body, and what delimits its parts. */
  datatype Area = Area(bs: nat, be: nat, boundary: Bytes)

  /** d and next are delimiters of the area and there is none between them. */
  ghost predicate Neighbours(raw: Bytes, a: Area, d: nat, next: nat) {
    && IsDelim(raw, a.bs, a.be, DASHES + a.boundary, d) && IsDelim(raw, a.bs, a.be, DASHES + a.boundary, next)
    && d < next && forall q :: d < q < next ==> !IsDelim(raw, a.bs, a.be, DASHES + a.boundary, q)
  }

  /** The header begins on the line after the delimiter at d. */
  ghost predicate HeaderStarts(raw: Bytes, d: nat, hs: nat) {
    d < hs <= |raw| && raw[hs - 1] == LF && forall q :: d <= q < hs - 1 ==> raw[q] != LF
  }

  /** What is cut off the end of the part is one line break: all of a CRLF, or the LF that is not part of one. */
  ghost predicate BodyEnds(raw: Bytes, hs: nat, e: nat, next: nat) {
    && hs <= e <= next <= |raw|
    && (|| raw[e..next] == [CR, LF]
        || (raw[e..next] == [LF] && (e > hs ==> raw[e - 1] != CR))
        || (e == next && hs == next))
  }

  /** CR LF CR LF ends at b. */
  ghost predicate BlankLine(raw: Bytes, b: int) {
    4 <= b <= |raw| && raw[b - 4] == raw[b - 2] == CR && raw[b - 3] == raw[b - 1] == LF
  }

  /** The header ends with the first blank line. */
  ghost predicate BodyStarts(raw: Bytes, hs: nat, b: nat, e: nat) {
    && hs + 4 <= b <= e <= |raw| && BlankLine(raw, b)
    && forall q :: hs + 4 <= q < b ==> !BlankLine(raw, q)
  }

  ghost predicate IsPart(raw: Bytes, d: nat, next: nat, p: Part) {
    && HeaderStarts(raw, d, p.headerStart) && BodyEnds(raw, p.headerStart, p.bodyEnd, next)
    && BodyStarts(raw, p.headerStart, p.bodyStart, p.bodyEnd)
  }

  ghost predicate IsPartOf(raw: Bytes, a: Area, p: Part) {
    exists d: nat, next: nat :: Neighbours(raw, a, d, next) && IsPart(raw, d, next, p)
  }

  function HeaderOf(m: Msg, p: Part): Header
    requires p.headerStart <= p.bodyStart <= |m.raw|
  {
    m.parse(m.raw[p.headerStart..p.bodyStart])
  }

  /** The header says multipart, and by what boundary. */
  ghost predicate Encloses(h: Header) {
    |h.ct| >= |MULTIPART| && h.ct[..|MULTIPART|] == MULTIPART && |h.boundary| > 0
  }

  /** The word, in any mix of cases. */
  ghost predicate SaysAttachment(disp: string) {
    |disp| == 10 && forall i :: 0 <= i < 10 ==> disp[i] == "attachment"[i] || disp[i] == "ATTACHMENT"[i]
  }

  lemma SaysAttachmentIff(disp: string)
    ensures SaysAttachment(disp) <==> EqualFold(disp, "attachment")
  {
    assert forall i :: 0 <= i < 10 ==> Fold("attachment"[i]) == "attachment"[i] && Fold("ATTACHMENT"[i]) == "attachment"[i];
    forall i | 0 <= i < 10 && |disp| == 10
      ensures Fold(disp[i]) == "attachment"[i] <==> disp[i] == "attachment"[i] || disp[i] == "ATTACHMENT"[i]
    {
    }
  }

  /** The part p is what sp cuts out: an attachment of the right size, under the name the header gives it. */
  ghost predicate CutsOut(m: Msg, p: Part, sp: Span)
    requires p.headerStart <= p.bodyStart <= |m.raw|
  {
    var h := HeaderOf(m, p);
    && !Encloses(h) && sp.start == p.bodyStart && sp.end == p.bodyEnd && sp.end - sp.start >= m.minSize
    && sp.ct == h.ct && (h.filename != "" ==> sp.name == h.filename) && (h.filename == "" ==> sp.name == h.name)
    && (sp.name == "" ==> SaysAttachment(h.disp))
  }

  /** b is the body of a multipart part of a. */
  ghost predicate Nested(m: Msg, a: Area, b: Area) {
    exists p :: IsPartOf(m.raw, a, p) && Encloses(HeaderOf(m, p)) && b == Area(p.bodyStart, p.bodyEnd, HeaderOf(m, p).boundary)
  }

  ghost predicate IsLeafOf(m: Msg, a: Area, sp: Span) {
    exists p :: IsPartOf(m.raw, a, p) && CutsOut(m, p, sp)
  }

  /** Areas, each nested in the one before. */
  ghost predicate IsChain(m: Msg, chain: seq<Area>) {
    |chain| > 0 && forall k :: 0 <= k < |chain| - 1 ==> Nested(m, chain[k], chain[k + 1])
  }

  /** sp cuts out a part of an area reached from a by nesting. */
  ghost predicate Extracts(m: Msg, a: Area, sp: Span) {
    exists chain :: ExtractsBy(m, chain, a, sp)
  }

  ghost predicate ExtractsBy(m: Msg, chain: seq<Area>, a: Area, sp: Span) {
    IsChain(m, chain) && chain[0] == a && IsLeafOf(m, chain[|chain| - 1], sp)
  }

  lemma ChainGrows(m: Msg, a: Area, rest: seq<Area>)
    requires IsChain(m, rest) && Nested(m, a, rest[0])
    ensures IsChain(m, [a] + rest)
  {
    var chain := [a] + rest;
    forall k | 0 <= k < |chain| - 1 ensures Nested(m, chain[k], chain[k + 1]) {
      assert k > 0 ==> Nested(m, rest[k - 1], rest[k - 1 + 1]);
    }
  }

  lemma ChainShrinks(m: Msg, chain: seq<Area>)
    requires IsChain(m, chain) && |chain| > 1
    ensures Nested(m, chain[0], chain[1]) && IsChain(m, chain[1..])
  {
    assert Nested(m, chain[0], chain[0 + 1]);
    var rest := chain[1..];
    forall k | 0 <= k < |rest| - 1 ensures Nested(m, rest[k], rest[k + 1]) {
      assert Nested(m, chain[k + 1], chain[k + 1 + 1]);
    }
  }

  /** In the area itself, or further in. */
  lemma ExtractsIff(m: Msg, a: Area, sp: Span)
    ensures Extracts(m, a, sp) <==> IsLeafOf(m, a, sp) || exists b :: Nested(m, a, b) && Extracts(m, b, sp)
  {
    if Extracts(m, a, sp) {
      ExtractsHereOrDeeper(m, a, sp);
    }
    if IsLeafOf(m, a, sp) {
      assert ExtractsBy(m, [a], a, sp);
    }
    if b :| Nested(m, a, b) && Extracts(m, b, sp) {
      DeeperExtracts(m, a, b, sp);
    }
  }

  lemma ExtractsHereOrDeeper(m: Msg, a: Area, sp: Span)
    requires Extracts(m, a, sp)
    ensures IsLeafOf(m, a, sp) || exists b :: Nested(m, a, b) && Extracts(m, b, sp)
  {
    var chain :| ExtractsBy(m, chain, a, sp);
    if |chain| > 1 {
      ChainShrinks(m, chain);
      var rest := chain[1..];
      assert ExtractsBy(m, rest, chain[1], sp);
    }
  }

  lemma DeeperExtracts(m: Msg, a: Area, b: Area, sp: Span)
    requires Nested(m, a, b) && Extracts(m, b, sp)
    ensures Extracts(m, a, sp)
  {
    var rest :| ExtractsBy(m, rest, b, sp);
    ChainGrows(m, a, rest);
    assert ExtractsBy(m, [a] + rest, a, sp);
  }

  lemma OneByte(raw: Bytes, x: Byte, q: nat, e: nat)
    requires e <= |raw|
    ensures Matches(raw, [x], q, e) <==> q < e && raw[q] == x
  {
    if q < e {
      assert raw[q..q + 1] == [raw[q]];
    }
  }

  lemma HeaderStartsIff(raw: Bytes, be: nat, d: nat, next: nat, hs: nat)
    requires Gap(raw, be, d, next)
    ensures HeaderStarts(raw, d, hs) <==> hs > 0 && Find(raw, [LF], d, be) == Some(hs - 1)
  {
    FindFirst(raw, [LF], d, be);
    forall q: nat ensures Matches(raw, [LF], q, be) <==> q < be && raw[q] == LF {
      OneByte(raw, LF, q, be);
    }
    assert Matches(raw, [LF], next - 1, be);
  }

  lemma BodyEndsIff(raw: Bytes, hs: nat, e: nat, next: nat)
    requires hs <= next <= |raw| && next > 0 && raw[next - 1] == LF
    ensures BodyEnds(raw, hs, e, next) <==> e == Trimmed(raw, hs, next)
  {
    if hs + 2 <= next {
      assert raw[next - 2..next] == [raw[next - 2], raw[next - 1]];
    }
    if hs + 1 <= next {
      assert raw[next - 1..next] == [raw[next - 1]];
    }
    assert raw[next..next] == [];
    if hs <= e <= next {
      assert |raw[e..next]| == next - e;
    }
  }

  lemma BodyStartsIff(raw: Bytes, hs: nat, b: nat, e: nat)
    requires hs <= e <= |raw|
    ensures BodyStarts(raw, hs, b, e) <==> b >= 4 && Find(raw, BLANK_LINE, hs, e) == Some(b - 4)
  {
    FindFirst(raw, BLANK_LINE, hs, e);
    forall q: nat
      ensures Matches(raw, BLANK_LINE, q, e) <==> q + 4 <= e && BlankLine(raw, q + 4)
    {
      if q + 4 <= e {
        assert raw[q..q + 4] == [raw[q], raw[q + 1], raw[q + 2], raw[q + 3]];
      }
    }
    if b >= 4 {
      assert Matches(raw, BLANK_LINE, b - 4, e) <==> b <= e && BlankLine(raw, b);
    }
    forall q | hs + 4 <= q <= e
      ensures BlankLine(raw, q) <==> Matches(raw, BLANK_LINE, q - 4, e)
    {
    }
  }

  /** PartAt finds the part, where there is one. */
  lemma PartAtIff(raw: Bytes, be: nat, d: nat, next: nat, p: Part)
    requires Gap(raw, be, d, next)
    ensures IsPart(raw, d, next, p) <==> PartAt(raw, be, d, next) == Some(p)
  {
    HeaderStartsIff(raw, be, d, next, p.headerStart);
    FindFirst(raw, [LF], d, be);
    assert Matches(raw, [LF], next - 1, be);
    if p.headerStart <= next {
      BodyEndsIff(raw, p.headerStart, p.bodyEnd, next);
      if p.headerStart <= p.bodyEnd <= next {
        BodyStartsIff(raw, p.headerStart, p.bodyStart, p.bodyEnd);
      }
    }
  }

  // ------------------------------------------------------------- the walk finds them

  /** The part between d and next gives sp: it is cut out itself, or something nested in it is. */
  ghost predicate Gives(m: Msg, d: nat, next: nat, sp: Span) {
    exists p :: IsPart(m.raw, d, next, p) && PartGives(m, p, sp)
  }

  ghost predicate PartGives(m: Msg, p: Part, sp: Span)
    requires p.headerStart <= p.bodyStart <= |m.raw|
  {
    var h := HeaderOf(m, p);
    if Encloses(h) then Extracts(m, Area(p.bodyStart, p.bodyEnd, h.boundary), sp) else CutsOut(m, p, sp)
  }

  ghost predicate SomeGives(m: Msg, a: Area, sp: Span) {
    exists d: nat, next: nat :: Neighbours(m.raw, a, d, next) && Gives(m, d, next, sp)
  }

  lemma ExtractsSome(m: Msg, a: Area, sp: Span)
    ensures Extracts(m, a, sp) <==> SomeGives(m, a, sp)
  {
    ExtractsIff(m, a, sp);
    if p :| IsPartOf(m.raw, a, p) && CutsOut(m, p, sp) {
      var d: nat, next: nat :| Neighbours(m.raw, a, d, next) && IsPart(m.raw, d, next, p);
      assert PartGives(m, p, sp) && Gives(m, d, next, sp);
    }
    if b :| Nested(m, a, b) && Extracts(m, b, sp) {
      var p :| IsPartOf(m.raw, a, p) && Encloses(HeaderOf(m, p)) && b == Area(p.bodyStart, p.bodyEnd, HeaderOf(m, p).boundary);
      var d: nat, next: nat :| Neighbours(m.raw, a, d, next) && IsPart(m.raw, d, next, p);
      assert PartGives(m, p, sp) && Gives(m, d, next, sp);
    }
    if SomeGives(m, a, sp) {
      SomeExtracts(m, a, sp);
    }
  }

  lemma SomeExtracts(m: Msg, a: Area, sp: Span)
    requires SomeGives(m, a, sp)
    ensures IsLeafOf(m, a, sp) || exists b :: Nested(m, a, b) && Extracts(m, b, sp)
  {
    var d: nat, next: nat :| Neighbours(m.raw, a, d, next) && Gives(m, d, next, sp);
    var p :| IsPart(m.raw, d, next, p) && PartGives(m, p, sp);
    assert IsPartOf(m.raw, a, p);
    if Encloses(HeaderOf(m, p)) {
      assert Nested(m, a, Area(p.bodyStart, p.bodyEnd, HeaderOf(m, p).boundary));
    }
  }

  /** Neighbours are what follows each other in the list of delimiters. */
  lemma NeighboursIff(raw: Bytes, a: Area, ds: seq<nat>, d: nat, next: nat)
    requires a.bs <= a.be <= |raw| && ds == Delims(raw, a.bs, a.be, DASHES + a.boundary, a.bs)
    ensures Neighbours(raw, a, d, next) <==> exists j :: Follow(ds, j, d, next)
  {
    DelimsExact(raw, a.bs, a.be, DASHES + a.boundary, a.bs);
    if Neighbours(raw, a, d, next) {
      Adjacent(ds, d, next);
    }
    if j :| Follow(ds, j, d, next) {
      forall q | d < q < next ensures q !in ds {
        NoneBetween(ds, j, q);
      }
      assert ds[j] in ds && ds[j + 1] in ds;
    }
  }

  predicate Follow(ds: seq<nat>, j: int, d: nat, next: nat) {
    0 <= j < |ds| - 1 && ds[j] == d && ds[j + 1] == next
  }

  lemma Adjacent(ds: seq<nat>, d: nat, next: nat)
    requires Ascending(ds) && d in ds && next in ds && d < next && forall q :: d < q < next ==> q !in ds
    ensures exists j :: Follow(ds, j, d, next)
  {
    var j :| 0 <= j < |ds| && ds[j] == d;
    var l :| 0 <= l < |ds| && ds[l] == next;
    assert j < l;
    assert ds[j + 1] in ds;
    assert Follow(ds, j, d, next);
  }

  lemma NoneBetween(ds: seq<nat>, j: int, q: int)
    requires Ascending(ds) && 0 <= j < |ds| - 1 && ds[j] < q < ds[j + 1]
    ensures q !in ds
  {
  }

  lemma LeafIff(m: Msg, p: Part, sp: Span)
    requires p.headerStart <= p.bodyStart <= |m.raw| && !Encloses(HeaderOf(m, p))
    ensures sp in Leaf(HeaderOf(m, p), p, m.minSize) <==> CutsOut(m, p, sp)
  {
    var h := HeaderOf(m, p);
    SaysAttachmentIff(h.disp);
  }

  lemma EnclosesIff(h: Header)
    ensures Encloses(h) <==> IsMultipart(h)
  {
  }

  lemma {:induction false} OnePartIff(m: Msg, be: nat, d: nat, next: nat, delims: nat, depth: nat, sp: Span)
    requires Gap(m.raw, be, d, next) && depth <= MAX_DEPTH && !OnePart(m, be, d, next, delims, depth).over
    ensures sp in OnePart(m, be, d, next, delims, depth).spans <==> Gives(m, d, next, sp)
    decreases MAX_DEPTH + 1 - depth, 0, 0
  {
    var r := PartAt(m.raw, be, d, next);
    forall p ensures IsPart(m.raw, d, next, p) <==> r == Some(p) {
      PartAtIff(m.raw, be, d, next, p);
    }
    if r.Some? {
      var p := r.value;
      EnclosesIff(HeaderOf(m, p));
      if Encloses(HeaderOf(m, p)) {
        CollectedIff(m, p.bodyStart, p.bodyEnd, HeaderOf(m, p).boundary, delims, depth + 1, sp);
      } else {
        LeafIff(m, p, sp);
      }
      assert IsPart(m.raw, d, next, p);
      assert Gives(m, d, next, sp) <==> PartGives(m, p, sp);
    }
  }

  ghost predicate GivesAt(m: Msg, ds: seq<nat>, j: int, sp: Span) {
    0 <= j < |ds| - 1 && Gives(m, ds[j], ds[j + 1], sp)
  }

  ghost predicate GivesFrom(m: Msg, ds: seq<nat>, k: nat, sp: Span) {
    exists j :: k <= j && GivesAt(m, ds, j, sp)
  }

  lemma GivesNext(m: Msg, ds: seq<nat>, k: nat, sp: Span)
    ensures GivesFrom(m, ds, k, sp) <==> GivesAt(m, ds, k, sp) || GivesFrom(m, ds, k + 1, sp)
  {
    if j :| k <= j && GivesAt(m, ds, j, sp) {
      assert j == k || k + 1 <= j;
    }
    if GivesAt(m, ds, k, sp) {
      assert k <= k;
    }
  }

  lemma SomeGivesAt(m: Msg, a: Area, ds: seq<nat>, sp: Span)
    requires a.bs <= a.be <= |m.raw| && ds == Delims(m.raw, a.bs, a.be, DASHES + a.boundary, a.bs)
    ensures SomeGives(m, a, sp) <==> GivesFrom(m, ds, 0, sp)
  {
    if d: nat, next: nat :| Neighbours(m.raw, a, d, next) && Gives(m, d, next, sp) {
      NeighboursIff(m.raw, a, ds, d, next);
      var j :| Follow(ds, j, d, next);
      assert GivesAt(m, ds, j, sp);
    }
    if j :| 0 <= j && GivesAt(m, ds, j, sp) {
      NeighboursIff(m.raw, a, ds, ds[j], ds[j + 1]);
      assert Follow(ds, j, ds[j], ds[j + 1]);
    }
  }

  lemma PartsNext(m: Msg, bs: nat, be: nat, ds: seq<nat>, k: nat, delims: nat, depth: nat)
    requires Region(m.raw, bs, be, ds) && k + 1 < |ds| && depth <= MAX_DEPTH && Gap(m.raw, be, ds[k], ds[k + 1])
    ensures var r, one := Parts(m, bs, be, ds, k, delims, depth), OnePart(m, be, ds[k], ds[k + 1], delims, depth);
            if one.over then r.over
            else
              var rest := Parts(m, bs, be, ds, k + 1, one.delims, depth);
              r.over == rest.over && r.delims == rest.delims && r.spans == one.spans + rest.spans
  {
  }

  lemma {:induction false} PartsIff(m: Msg, bs: nat, be: nat, ds: seq<nat>, k: nat, delims: nat, depth: nat, sp: Span)
    requires Region(m.raw, bs, be, ds) && k <= |ds| && depth <= MAX_DEPTH && !Parts(m, bs, be, ds, k, delims, depth).over
    ensures sp in Parts(m, bs, be, ds, k, delims, depth).spans <==> GivesFrom(m, ds, k, sp)
    decreases MAX_DEPTH + 1 - depth, 1, |ds| - k
  {
    if k + 1 < |ds| {
      PartsNextIff(m, bs, be, ds, k, delims, depth, sp);
      GivesNext(m, ds, k, sp);
    }
  }

  lemma {:induction false} PartsNextIff(m: Msg, bs: nat, be: nat, ds: seq<nat>, k: nat, delims: nat, depth: nat,
                                        sp: Span)
    requires Region(m.raw, bs, be, ds) && k + 1 < |ds| && depth <= MAX_DEPTH
    requires !Parts(m, bs, be, ds, k, delims, depth).over
    ensures sp in Parts(m, bs, be, ds, k, delims, depth).spans <==> GivesAt(m, ds, k, sp) || GivesFrom(m, ds, k + 1, sp)
    decreases MAX_DEPTH + 1 - depth, 1, |ds| - k, 0
  {
    assert Gap(m.raw, be, ds[k + 1 - 1], ds[k + 1]);
    var one := OnePart(m, be, ds[k], ds[k + 1], delims, depth);
    PartsNext(m, bs, be, ds, k, delims, depth);
    OnePartIff(m, be, ds[k], ds[k + 1], delims, depth, sp);
    PartsIff(m, bs, be, ds, k + 1, one.delims, depth, sp);
  }

  /** A walk that is not over a limit finds exactly the spans that cut out a part reached by nesting. */
  lemma {:induction false} CollectedIff(m: Msg, bs: nat, be: nat, boundary: Bytes, delims: nat, depth: nat, sp: Span)
    requires bs <= be <= |m.raw| && depth <= MAX_DEPTH + 1 && !Collected(m, bs, be, boundary, delims, depth).over
    ensures sp in Collected(m, bs, be, boundary, delims, depth).spans <==> Extracts(m, Area(bs, be, boundary), sp)
    decreases MAX_DEPTH + 1 - depth, 2, 0
  {
    var a := Area(bs, be, boundary);
    var ds := Delims(m.raw, bs, be, DASHES + boundary, bs);
    DelimsRegion(m.raw, bs, be, DASHES + boundary);
    PartsIff(m, bs, be, ds, 0, delims + |ds|, depth, sp);
    ExtractsSome(m, a, sp);
    SomeGivesAt(m, a, ds, sp);
  }

  // ------------------------------------------------------------------ the limits

  /** The delimiters of an area and of everything nested in it, counted without a limit. */
  function Total(m: Msg, a: Area): nat
    requires a.bs <= a.be <= |m.raw|
    decreases a.be - a.bs, 1, 0
  {
    DelimsRegion(m.raw, a.bs, a.be, DASHES + a.boundary);
    var ds := Delims(m.raw, a.bs, a.be, DASHES + a.boundary, a.bs);
    |ds| + TotalFrom(m, a, ds, 0)
  }

  function TotalFrom(m: Msg, a: Area, ds: seq<nat>, k: nat): nat
    requires Region(m.raw, a.bs, a.be, ds) && k <= |ds|
    decreases a.be - a.bs, 0, |ds| - k
  {
    if k + 1 >= |ds| then 0
    else
      assert Gap(m.raw, a.be, ds[k + 1 - 1], ds[k + 1]);
      var inner := Inner(m, a.be, ds[k], ds[k + 1]);
      (if inner.None? then 0 else Total(m, inner.value)) + TotalFrom(m, a, ds, k + 1)
  }

  /** How deep areas are nested in this one, itself included. */
  function Height(m: Msg, a: Area): nat
    requires a.bs <= a.be <= |m.raw|
    decreases a.be - a.bs, 1, 0
  {
    DelimsRegion(m.raw, a.bs, a.be, DASHES + a.boundary);
    1 + HeightFrom(m, a, Delims(m.raw, a.bs, a.be, DASHES + a.boundary, a.bs), 0)
  }

  function HeightFrom(m: Msg, a: Area, ds: seq<nat>, k: nat): nat
    requires Region(m.raw, a.bs, a.be, ds) && k <= |ds|
    decreases a.be - a.bs, 0, |ds| - k
  {
    if k + 1 >= |ds| then 0
    else
      assert Gap(m.raw, a.be, ds[k + 1 - 1], ds[k + 1]);
      var inner := Inner(m, a.be, ds[k], ds[k + 1]);
      var here, rest := if inner.None? then 0 else Height(m, inner.value), HeightFrom(m, a, ds, k + 1);
      if here < rest then rest else here
  }

  /** The multipart body between the delimiters at d and next, if there is one. */
  function Inner(m: Msg, be: nat, d: nat, next: nat): (b: Option<Area>)
    requires Gap(m.raw, be, d, next)
    ensures b.Some? ==> d < b.value.bs <= b.value.be <= next
  {
    var p := PartAt(m.raw, be, d, next);
    if p.None? || !IsMultipart(HeaderOf(m, p.value)) then None
    else Some(Area(p.value.bodyStart, p.value.bodyEnd, HeaderOf(m, p.value).boundary))
  }

  /** The walk is over a limit: too deep, or too many delimiters in all. */
  predicate TooMuch(height: nat, total: nat, delims: nat, depth: nat) {
    height + depth > MAX_DEPTH + 1 || delims + total > MAX_PARTS
  }

  /** r is the outcome of work of this height and total, begun at this count and depth. */
  predicate GivesUp(r: Found, height: nat, total: nat, delims: nat, depth: nat) {
    && (r.over <==> TooMuch(height, total, delims, depth))
    && (!r.over ==> r.delims == delims + total)
  }

  /** The walk stops early, and gives up exactly when it would be over a limit at the end. */
  lemma {:induction false} OverIff(m: Msg, a: Area, delims: nat, depth: nat)
    requires a.bs <= a.be <= |m.raw| && delims <= MAX_PARTS && depth <= MAX_DEPTH + 1
    ensures GivesUp(Collected(m, a.bs, a.be, a.boundary, delims, depth), Height(m, a), Total(m, a), delims, depth)
    decreases MAX_DEPTH + 1 - depth, 2, 0, 0
  {
    var ds := Delims(m.raw, a.bs, a.be, DASHES + a.boundary, a.bs);
    DelimsRegion(m.raw, a.bs, a.be, DASHES + a.boundary);
    UnrollArea(m, a, ds);
    UnrollCollected(m, a, ds, delims, depth);
    if depth <= MAX_DEPTH && delims + |ds| <= MAX_PARTS {
      OverFrom(m, a, ds, 0, delims + |ds|, depth);
    }
  }

  lemma UnrollArea(m: Msg, a: Area, ds: seq<nat>)
    requires a.bs <= a.be <= |m.raw|
    requires ds == Delims(m.raw, a.bs, a.be, DASHES + a.boundary, a.bs) && Region(m.raw, a.bs, a.be, ds)
    ensures Total(m, a) == |ds| + TotalFrom(m, a, ds, 0) && Height(m, a) == 1 + HeightFrom(m, a, ds, 0)
  {
  }

  lemma UnrollCollected(m: Msg, a: Area, ds: seq<nat>, delims: nat, depth: nat)
    requires a.bs <= a.be <= |m.raw| && delims <= MAX_PARTS && depth <= MAX_DEPTH + 1
    requires ds == Delims(m.raw, a.bs, a.be, DASHES + a.boundary, a.bs) && Region(m.raw, a.bs, a.be, ds)
    ensures var r := Collected(m, a.bs, a.be, a.boundary, delims, depth);
            if depth > MAX_DEPTH || delims + |ds| > MAX_PARTS then r.over
            else
              var ps := Parts(m, a.bs, a.be, ds, 0, delims + |ds|, depth);
              r.over == ps.over && r.delims == ps.delims
  {
  }

  lemma {:induction false} OverFrom(m: Msg, a: Area, ds: seq<nat>, k: nat, delims: nat, depth: nat)
    requires Region(m.raw, a.bs, a.be, ds) && k <= |ds| && delims <= MAX_PARTS && depth <= MAX_DEPTH
    ensures GivesUp(Parts(m, a.bs, a.be, ds, k, delims, depth), HeightFrom(m, a, ds, k) + 1, TotalFrom(m, a, ds, k), delims, depth)
    decreases MAX_DEPTH + 1 - depth, 1, |ds| - k, 1
  {
    if k + 1 >= |ds| {
      NoMore(m, a, ds, k, delims, depth);
    } else {
      assert Gap(m.raw, a.be, ds[k + 1 - 1], ds[k + 1]);
      OverOne(m, a.be, ds[k], ds[k + 1], delims, depth);
      OverRest(m, a, ds, k, delims, depth);
      OverNext(m, a, ds, k, delims, depth);
    }
  }

  lemma {:induction false} OverRest(m: Msg, a: Area, ds: seq<nat>, k: nat, delims: nat, depth: nat)
    requires Region(m.raw, a.bs, a.be, ds) && k + 1 < |ds| && Gap(m.raw, a.be, ds[k], ds[k + 1])
    requires delims <= MAX_PARTS && depth <= MAX_DEPTH
    requires var one, inner := OnePart(m, a.be, ds[k], ds[k + 1], delims, depth), Inner(m, a.be, ds[k], ds[k + 1]);
             GivesUp(one, InnerHeight(m, inner), InnerTotal(m, inner), delims, depth + 1)
    ensures var one := OnePart(m, a.be, ds[k], ds[k + 1], delims, depth);
            !one.over ==> GivesUp(Parts(m, a.bs, a.be, ds, k + 1, one.delims, depth), HeightFrom(m, a, ds, k + 1) + 1,
                                  TotalFrom(m, a, ds, k + 1), one.delims, depth)
    decreases MAX_DEPTH + 1 - depth, 1, |ds| - k, 0
  {
    var one := OnePart(m, a.be, ds[k], ds[k + 1], delims, depth);
    WithinCount(one, Inner(m, a.be, ds[k], ds[k + 1]), m, delims, depth);
    if !one.over {
      OverFrom(m, a, ds, k + 1, one.delims, depth);
    }
  }

  lemma NoMore(m: Msg, a: Area, ds: seq<nat>, k: nat, delims: nat, depth: nat)
    requires Region(m.raw, a.bs, a.be, ds) && k <= |ds| <= k + 1 && delims <= MAX_PARTS && depth <= MAX_DEPTH
    ensures GivesUp(Parts(m, a.bs, a.be, ds, k, delims, depth), HeightFrom(m, a, ds, k) + 1, TotalFrom(m, a, ds, k), delims, depth)
  {
  }

  lemma WithinCount(one: Found, inner: Option<Area>, m: Msg, delims: nat, depth: nat)
    requires inner.Some? ==> inner.value.bs <= inner.value.be <= |m.raw|
    requires GivesUp(one, InnerHeight(m, inner), InnerTotal(m, inner), delims, depth + 1)
    ensures !one.over ==> one.delims <= MAX_PARTS
  {
  }

  lemma OverNext(m: Msg, a: Area, ds: seq<nat>, k: nat, delims: nat, depth: nat)
    requires Region(m.raw, a.bs, a.be, ds) && k + 1 < |ds| && Gap(m.raw, a.be, ds[k], ds[k + 1])
    requires delims <= MAX_PARTS && depth <= MAX_DEPTH
    requires var one, inner := OnePart(m, a.be, ds[k], ds[k + 1], delims, depth), Inner(m, a.be, ds[k], ds[k + 1]);
             && GivesUp(one, InnerHeight(m, inner), InnerTotal(m, inner), delims, depth + 1)
             && (!one.over ==> GivesUp(Parts(m, a.bs, a.be, ds, k + 1, one.delims, depth), HeightFrom(m, a, ds, k + 1) + 1,
                                       TotalFrom(m, a, ds, k + 1), one.delims, depth))
    ensures GivesUp(Parts(m, a.bs, a.be, ds, k, delims, depth), HeightFrom(m, a, ds, k) + 1, TotalFrom(m, a, ds, k), delims, depth)
  {
    var one, inner := OnePart(m, a.be, ds[k], ds[k + 1], delims, depth), Inner(m, a.be, ds[k], ds[k + 1]);
    PartsNext(m, a.bs, a.be, ds, k, delims, depth);
    Unroll(m, a, ds, k);
    var rest := if one.over then one else Parts(m, a.bs, a.be, ds, k + 1, one.delims, depth);
    Sequel(Parts(m, a.bs, a.be, ds, k, delims, depth), one, rest, InnerHeight(m, inner), InnerTotal(m, inner),
           HeightFrom(m, a, ds, k + 1), TotalFrom(m, a, ds, k + 1), delims, depth);
  }

  /** Two pieces of work one after the other. */
  lemma Sequel(r: Found, one: Found, rest: Found, h1: nat, t1: nat, h2: nat, t2: nat, delims: nat, depth: nat)
    requires delims <= MAX_PARTS && depth <= MAX_DEPTH && GivesUp(one, h1, t1, delims, depth + 1)
    requires !one.over ==> GivesUp(rest, h2 + 1, t2, one.delims, depth) && r.over == rest.over && r.delims == rest.delims
    requires one.over ==> r.over
    ensures GivesUp(r, (if h1 < h2 then h2 else h1) + 1, t1 + t2, delims, depth)
  {
  }

  function InnerHeight(m: Msg, inner: Option<Area>): nat
    requires inner.Some? ==> inner.value.bs <= inner.value.be <= |m.raw|
  {
    if inner.None? then 0 else Height(m, inner.value)
  }

  function InnerTotal(m: Msg, inner: Option<Area>): nat
    requires inner.Some? ==> inner.value.bs <= inner.value.be <= |m.raw|
  {
    if inner.None? then 0 else Total(m, inner.value)
  }

  lemma Unroll(m: Msg, a: Area, ds: seq<nat>, k: nat)
    requires Region(m.raw, a.bs, a.be, ds) && k + 1 < |ds| && Gap(m.raw, a.be, ds[k], ds[k + 1])
    ensures var inner := Inner(m, a.be, ds[k], ds[k + 1]);
            var here, rest := InnerHeight(m, inner), HeightFrom(m, a, ds, k + 1);
            && TotalFrom(m, a, ds, k) == InnerTotal(m, inner) + TotalFrom(m, a, ds, k + 1)
            && HeightFrom(m, a, ds, k) == if here < rest then rest else here
  {
  }

  lemma {:induction false} OverOne(m: Msg, be: nat, d: nat, next: nat, delims: nat, depth: nat)
    requires Gap(m.raw, be, d, next) && delims <= MAX_PARTS && depth <= MAX_DEPTH
    ensures var r, inner := OnePart(m, be, d, next, delims, depth), Inner(m, be, d, next);
            GivesUp(r, InnerHeight(m, inner), InnerTotal(m, inner), delims, depth + 1)
    decreases MAX_DEPTH + 1 - depth, 0, 0, 0
  {
    var inner := Inner(m, be, d, next);
    if inner.Some? {
      OverIff(m, inner.value, delims, depth + 1);
    }
  }
}
