/**
  The attachment splitter: a raw message is cut into literal spans and the exact
  encoded bytes of its large attachments, so that the pieces tile the message.
*/
module AttSplit {

  import opened AttParts
  import opened AttWalk
  import opened Wrappers

  // ------------------------------------------------------------- the skeleton

  datatype Attachment = Attachment(ct: string, name: string, encoded: Bytes)

  datatype Piece = Literal(bytes: Bytes) | Ref(att: nat)

  datatype Skeleton = Skeleton(pieces: seq<Piece>, parts: seq<Attachment>)

  datatype Segment = Attach(index: nat) | Copy(length: nat)

  predicate Refers(pieces: seq<Piece>, n: nat) {
    forall i :: 0 <= i < |pieces| && pieces[i].Ref? ==> pieces[i].att < n
  }

  function PieceBytes(p: Piece, parts: seq<Attachment>): Bytes
    requires p.Ref? ==> p.att < |parts|
  {
    if p.Ref? then parts[p.att].encoded else p.bytes
  }

  function Rebuilt(pieces: seq<Piece>, parts: seq<Attachment>): Bytes
    requires Refers(pieces, |parts|)
  {
    if pieces == [] then []
    else Rebuilt(pieces[..|pieces| - 1], parts) + PieceBytes(pieces[|pieces| - 1], parts)
  }

  function Literals(pieces: seq<Piece>): Bytes {
    if pieces == [] then []
    else Literals(pieces[..|pieces| - 1]) + LiteralOf(pieces[|pieces| - 1])
  }

  function LiteralOf(p: Piece): Bytes { if p.Ref? then [] else p.bytes }

  function SegmentOf(p: Piece): Segment {
    if p.Ref? then Attach(p.att) else Copy(|p.bytes|)
  }

  function Segments(pieces: seq<Piece>): seq<Segment> {
    if pieces == [] then []
    else Segments(pieces[..|pieces| - 1]) + [SegmentOf(pieces[|pieces| - 1])]
  }

  /** How a reader puts a stored message together again: Copy consumes the skeleton from the front. */
  function Splice(skeleton: Bytes, segments: seq<Segment>, parts: seq<Attachment>): Option<Bytes> {
    if segments == [] then (if skeleton == [] then Some([]) else None)
    else match segments[0]
      case Attach(i) =>
        if i >= |parts| then None
        else var rest := Splice(skeleton, segments[1..], parts);
             if rest.None? then None else Some(parts[i].encoded + rest.value)
      case Copy(n) =>
        if n > |skeleton| then None
        else var rest := Splice(skeleton[n..], segments[1..], parts);
             if rest.None? then None else Some(skeleton[..n] + rest.value)
  }

  method Reconstruct(sk: Skeleton) returns (raw: Bytes)
    requires Refers(sk.pieces, |sk.parts|)
    ensures raw == Rebuilt(sk.pieces, sk.parts)
  {
    raw := [];
    for i := 0 to |sk.pieces|
      invariant raw == Rebuilt(sk.pieces[..i], sk.parts)
    {
      assert sk.pieces[..i + 1][..i] == sk.pieces[..i];
      raw := raw + if sk.pieces[i].Ref? then sk.parts[sk.pieces[i].att].encoded else sk.pieces[i].bytes;
    }
    assert sk.pieces[..|sk.pieces|] == sk.pieces;
  }

  /** The stored form; Splice is its reader. */
  method Layout(sk: Skeleton) returns (skeleton: Bytes, segments: seq<Segment>)
    requires Refers(sk.pieces, |sk.parts|)
    ensures Splice(skeleton, segments, sk.parts) == Some(Rebuilt(sk.pieces, sk.parts))
    ensures skeleton == Literals(sk.pieces) && |segments| == |sk.pieces|
  {
    skeleton, segments := [], [];
    for i := 0 to |sk.pieces|
      invariant skeleton == Literals(sk.pieces[..i]) && segments == Segments(sk.pieces[..i]) && |segments| == i
    {
      assert sk.pieces[..i + 1][..i] == sk.pieces[..i];
      if sk.pieces[i].Ref? {
        segments := segments + [Attach(sk.pieces[i].att)];
      } else {
        skeleton := skeleton + sk.pieces[i].bytes;
        segments := segments + [Copy(|sk.pieces[i].bytes|)];
      }
    }
    assert sk.pieces[..|sk.pieces|] == sk.pieces;
    SpliceRebuilds(sk.pieces, sk.parts);
  }

  method SkeletonSize(sk: Skeleton) returns (n: nat)
    ensures n == |Literals(sk.pieces)|
  {
    n := 0;
    for i := 0 to |sk.pieces|
      invariant n == |Literals(sk.pieces[..i])|
    {
      assert sk.pieces[..i + 1][..i] == sk.pieces[..i];
      if !sk.pieces[i].Ref? {
        n := n + |sk.pieces[i].bytes|;
      }
    }
    assert sk.pieces[..|sk.pieces|] == sk.pieces;
  }

  lemma {:induction false} SpliceAppend(skeleton: Bytes, segs: seq<Segment>, parts: seq<Attachment>, p: Piece)
    requires Splice(skeleton, segs, parts).Some?
    requires p.Ref? ==> p.att < |parts|
    ensures Splice(skeleton + LiteralOf(p), segs + [SegmentOf(p)], parts)
            == Some(Splice(skeleton, segs, parts).value + PieceBytes(p, parts))
  {
    var lit, all, tail := LiteralOf(p), segs + [SegmentOf(p)], PieceBytes(p, parts);
    if segs == [] {
      assert all == [SegmentOf(p)] && all[1..] == [] && skeleton + lit == lit;
      assert lit[..|lit|] == lit && lit[|lit|..] == [] && tail + [] == tail && [] + tail == tail;
      assert Splice([], [], parts) == Some([]);
    } else {
      var rest := segs[1..];
      assert all[0] == segs[0] && all[1..] == rest + [SegmentOf(p)];
      match segs[0] {
        case Attach(i) =>
          SpliceAppend(skeleton, rest, parts, p);
          SeqAssoc(parts[i].encoded, Splice(skeleton, rest, parts).value, tail);
        case Copy(n) =>
          SpliceAppend(skeleton[n..], rest, parts, p);
          assert (skeleton + lit)[n..] == skeleton[n..] + lit && (skeleton + lit)[..n] == skeleton[..n];
          SeqAssoc(skeleton[..n], Splice(skeleton[n..], rest, parts).value, tail);
      }
    }
  }

  lemma SeqAssoc(a: Bytes, b: Bytes, c: Bytes)
    ensures a + (b + c) == a + b + c
  {
  }

  lemma {:induction false} SpliceRebuilds(pieces: seq<Piece>, parts: seq<Attachment>)
    requires Refers(pieces, |parts|)
    ensures Splice(Literals(pieces), Segments(pieces), parts) == Some(Rebuilt(pieces, parts))
  {
    if pieces != [] {
      var init, last := pieces[..|pieces| - 1], pieces[|pieces| - 1];
      SpliceRebuilds(init, parts);
      SpliceAppend(Literals(init), Segments(init), parts, last);
    }
  }

  // -------------------------------------------------------------------- Split

  function SinkSpan(s: seq<Span>, p: Span): seq<Span> {
    if s == [] || p.start >= s[|s| - 1].start then s + [p]
    else SinkSpan(s[..|s| - 1], p) + [s[|s| - 1]]
  }

  function SortByStart(s: seq<Span>): seq<Span> {
    if s == [] then [] else SinkSpan(SortByStart(s[..|s| - 1]), s[|s| - 1])
  }

  lemma SinkLast(s: seq<Span>, p: Span)
    requires s == [] || p.start >= s[|s| - 1].start
    ensures SinkSpan(s, p) == s + [p]
  {
  }

  /** The walk already yields the spans in order, so the sort changes nothing. */
  lemma {:induction false} SortIsIdle(s: seq<Span>)
    requires forall i :: 0 < i < |s| ==> s[i - 1].start <= s[i].start
    ensures SortByStart(s) == s
  {
    if s != [] {
      var init, last := s[..|s| - 1], s[|s| - 1];
      SortIsIdle(init);
      assert init != [] ==> init[|init| - 1] == s[|s| - 1 - 1];
      SinkLast(init, last);
      assert s == init + [last];
    }
  }

  function Sizes(parts: seq<Attachment>): nat {
    if parts == [] then 0 else Sizes(parts[..|parts| - 1]) + |parts[|parts| - 1].encoded|
  }

  /** The spans Split works on; none when the message is not multipart or too complex. */
  function SpansOf(raw: Bytes, minSize: int, parse: Parser): seq<Span> {
    FindFirst(raw, BLANK_LINE, 0, |raw|);
    var h := Find(raw, BLANK_LINE, 0, |raw|);
    if h.None? then [] else Walked(Msg(raw, minSize, parse), h.value + 4)
  }

  /**
    sp cuts an attachment out of the message: the message is a multipart by its own
    header block, within the limits, and sp cuts out a part reached by nesting.
  */
  ghost predicate IsCutOut(raw: Bytes, minSize: int, parse: Parser, sp: Span) {
    exists top: nat :: BodyStarts(raw, 0, top, |raw|) && CutOutOf(Msg(raw, minSize, parse), top, sp)
  }

  ghost predicate CutOutOf(m: Msg, top: nat, sp: Span)
    requires top <= |m.raw|
  {
    var own := m.parse(m.raw[..top]);
    var a := Area(top, |m.raw|, own.boundary);
    Encloses(own) && Height(m, a) <= MAX_DEPTH && Total(m, a) <= MAX_PARTS && Extracts(m, a, sp)
  }

  /** The walk from the message's own header block. */
  function Walked(m: Msg, top: nat): seq<Span>
    requires top <= |m.raw|
  {
    var own := m.parse(m.raw[..top]);
    if !IsMultipart(own) then []
    else
      var r := Collected(m, top, |m.raw|, own.boundary, 0, 1);
      if r.over then [] else r.spans
  }

  lemma WalkedIff(m: Msg, top: nat, sp: Span)
    requires top <= |m.raw|
    ensures sp in Walked(m, top) <==> CutOutOf(m, top, sp)
  {
    var own := m.parse(m.raw[..top]);
    EnclosesIff(own);
    if IsMultipart(own) {
      OverIff(m, Area(top, |m.raw|, own.boundary), 0, 1);
      if !Collected(m, top, |m.raw|, own.boundary, 0, 1).over {
        CollectedIff(m, top, |m.raw|, own.boundary, 0, 1, sp);
      }
    }
  }

  /** Exactly those. */
  lemma SpansIff(raw: Bytes, minSize: int, parse: Parser, sp: Span)
    ensures sp in SpansOf(raw, minSize, parse) <==> IsCutOut(raw, minSize, parse, sp)
  {
    var m, h := Msg(raw, minSize, parse), Find(raw, BLANK_LINE, 0, |raw|);
    FindFirst(raw, BLANK_LINE, 0, |raw|);
    if h.Some? {
      BodyStartsIff(raw, 0, h.value + 4, |raw|);
      WalkedIff(m, h.value + 4, sp);
    }
    if top: nat :| BodyStarts(raw, 0, top, |raw|) && CutOutOf(m, top, sp) {
      BodyStartsIff(raw, 0, top, |raw|);
    }
  }

  lemma SpansApart(raw: Bytes, minSize: int, parse: Parser)
    ensures Apart(SpansOf(raw, minSize, parse), 0, |raw|)
  {
    var h := Find(raw, BLANK_LINE, 0, |raw|);
    FindFirst(raw, BLANK_LINE, 0, |raw|);
    if h.Some? && IsMultipart(parse(raw[..h.value + 4])) {
      CollectedApart(Msg(raw, minSize, parse), h.value + 4, |raw|, parse(raw[..h.value + 4]).boundary, 0, 1);
    }
  }

  /** Whatever the message, the walk counts at most 1001 delimiters and searches at most 16 times its length. */
  lemma SplitWork(m: Msg, bs: nat, boundary: Bytes)
    requires bs <= |m.raw|
    ensures var r := Collected(m, bs, |m.raw|, boundary, 0, 1);
            r.delims <= MAX_PARTS + 1 && r.scanned <= MAX_DEPTH * |m.raw|
  {
    CollectedBounded(m, bs, |m.raw|, boundary, 0, 1);
    MulMono(MAX_DEPTH, |m.raw| - bs, |m.raw|);
  }

  /** The first half of Split. */
  method FindSpans(raw: Bytes, minSize: int, parse: Parser) returns (spans: seq<Span>)
    ensures spans == SpansOf(raw, minSize, parse)
    ensures forall sp :: sp in spans <==> IsCutOut(raw, minSize, parse, sp)
  {
    forall sp ensures sp in SpansOf(raw, minSize, parse) <==> IsCutOut(raw, minSize, parse, sp) {
      SpansIff(raw, minSize, parse, sp);
    }
    spans := [];
    FindFirst(raw, BLANK_LINE, 0, |raw|);
    var h := Find(raw, BLANK_LINE, 0, |raw|);
    if h.Some? {
      var own := parse(raw[..h.value + 4]);
      if IsMultipart(own) {
        var w := new Walk();
        w.Collect(Msg(raw, minSize, parse), h.value + 4, |raw|, own.boundary, 1);
        if !w.over {
          spans := w.out;
        }
      }
    }
  }

  /** att is what sp cuts out of raw. */
  ghost predicate IsAttachmentAt(raw: Bytes, sp: Span, att: Attachment) {
    sp.start <= sp.end <= |raw| && att == Attachment(sp.ct, sp.name, raw[sp.start..sp.end])
  }

  lemma ExtractedIff(parts: seq<Attachment>, spans: seq<Span>, raw: Bytes, att: Attachment)
    requires Extracted(parts, spans, raw) && |parts| == |spans|
    ensures att in parts <==> exists sp :: sp in spans && IsAttachmentAt(raw, sp, att)
  {
    if att in parts {
      var i :| 0 <= i < |parts| && parts[i] == att;
      assert spans[i] in spans && IsAttachmentAt(raw, spans[i], att);
    }
    if sp :| sp in spans && IsAttachmentAt(raw, sp, att) {
      var i :| 0 <= i < |spans| && spans[i] == sp;
      assert parts[i] in parts;
    }
  }

  ghost predicate Extracted(parts: seq<Attachment>, spans: seq<Span>, raw: Bytes) {
    && |parts| <= |spans| && Apart(spans, 0, |raw|)
    && forall i :: 0 <= i < |parts| ==>
         parts[i] == Attachment(spans[i].ct, spans[i].name, raw[spans[i].start..spans[i].end])
  }

  method Split(raw: Bytes, minSize: int, parse: Parser) returns (sk: Skeleton)
    ensures Refers(sk.pieces, |sk.parts|)
    ensures Rebuilt(sk.pieces, sk.parts) == raw
    ensures |Literals(sk.pieces)| + Sizes(sk.parts) == |raw|
    ensures |sk.parts| == |SpansOf(raw, minSize, parse)|
    ensures Extracted(sk.parts, SpansOf(raw, minSize, parse), raw)
    ensures forall att :: att in sk.parts <==> exists sp :: IsCutOut(raw, minSize, parse, sp) && IsAttachmentAt(raw, sp, att)
  {
    var spans := FindSpans(raw, minSize, parse);
    SpansApart(raw, minSize, parse);
    SortIsIdle(spans);
    spans := SortByStart(spans);
    sk := Cut(raw, spans);
    forall att
      ensures att in sk.parts <==> exists sp :: IsCutOut(raw, minSize, parse, sp) && IsAttachmentAt(raw, sp, att)
    {
      ExtractedIff(sk.parts, spans, raw, att);
    }
  }

  /** The second half of Split.  The overlap guard is there and never fires. */
  method Cut(raw: Bytes, spans: seq<Span>) returns (sk: Skeleton)
    requires Apart(spans, 0, |raw|)
    ensures Refers(sk.pieces, |sk.parts|)
    ensures Rebuilt(sk.pieces, sk.parts) == raw
    ensures |Literals(sk.pieces)| + Sizes(sk.parts) == |raw|
    ensures |sk.parts| == |spans| && Extracted(sk.parts, spans, raw)
  {
    var pieces, parts, pos := [], [], 0;
    for i := 0 to |spans|
      invariant pos == if i == 0 then 0 else spans[i - 1].end
      invariant Tiles(pieces, parts, raw, pos)
      invariant |parts| == i && Extracted(parts, spans, raw)
    {
      if spans[i].start < pos {
        assert false;
      }
      pieces, parts := CutSpan(raw, spans, i, pieces, parts, pos);
      pos := spans[i].end;
    }
    TakeRest(pieces, parts, raw, pos);
    if pos < |raw| {
      pieces := pieces + [Literal(raw[pos..])];
    }
    if |pieces| == 0 {
      pieces := pieces + [Literal(raw)];
    }
    sk := Skeleton(pieces, parts);
  }

  /** The loop body: the bytes up to the span, then a reference to it. */
  method CutSpan(raw: Bytes, spans: seq<Span>, i: nat, pieces: seq<Piece>, parts: seq<Attachment>, pos: nat)
    returns (pieces': seq<Piece>, parts': seq<Attachment>)
    requires Tiles(pieces, parts, raw, pos) && Extracted(parts, spans, raw)
    requires i < |spans| && |parts| == i && pos <= spans[i].start
    ensures Tiles(pieces', parts', raw, spans[i].end) && Extracted(parts', spans, raw) && |parts'| == i + 1
  {
    var sp := spans[i];
    TakeSpan(pieces, parts, raw, pos, spans, i);
    pieces' := pieces;
    if sp.start > pos {
      pieces' := pieces' + [Literal(raw[pos..sp.start])];
    }
    pieces' := pieces' + [Ref(|parts|)];
    parts' := parts + [Attachment(sp.ct, sp.name, raw[sp.start..sp.end])];
  }

  lemma TakeSpan(pieces: seq<Piece>, parts: seq<Attachment>, raw: Bytes, pos: nat, spans: seq<Span>, i: nat)
    requires Tiles(pieces, parts, raw, pos) && Extracted(parts, spans, raw)
    requires i < |spans| && |parts| == i && pos <= spans[i].start
    ensures var sp := spans[i];
            var parts' := parts + [Attachment(sp.ct, sp.name, raw[sp.start..sp.end])];
            var pieces' := (if sp.start > pos then pieces + [Literal(raw[pos..sp.start])] else pieces) + [Ref(i)];
            Tiles(pieces', parts', raw, sp.end) && Extracted(parts', spans, raw)
  {
    var sp := spans[i];
    var att := Attachment(sp.ct, sp.name, raw[sp.start..sp.end]);
    if sp.start > pos {
      AddLiteral(pieces, parts, raw, pos, sp.start);
      AddRef(pieces + [Literal(raw[pos..sp.start])], parts, raw, sp.start, sp.end, att);
    } else {
      AddRef(pieces, parts, raw, sp.start, sp.end, att);
    }
  }

  lemma TakeRest(pieces: seq<Piece>, parts: seq<Attachment>, raw: Bytes, pos: nat)
    requires Tiles(pieces, parts, raw, pos)
    ensures pos < |raw| ==> Tiles(pieces + [Literal(raw[pos..])], parts, raw, |raw|)
    ensures pieces == [] && raw == [] ==> Tiles([Literal(raw)], parts, raw, 0)
    ensures raw[..|raw|] == raw
  {
    if pos < |raw| {
      AddLiteral(pieces, parts, raw, pos, |raw|);
      assert raw[pos..|raw|] == raw[pos..];
    } else if pieces == [] && raw == [] {
      AddLiteral(pieces, parts, raw, 0, 0);
      assert pieces + [Literal(raw[0..0])] == [Literal(raw)];
    }
  }

  /** The pieces rebuild the first pos bytes, and account for every one of them. */
  ghost predicate Tiles(pieces: seq<Piece>, parts: seq<Attachment>, raw: Bytes, pos: nat) {
    && pos <= |raw| && Refers(pieces, |parts|)
    && Rebuilt(pieces, parts) == raw[..pos]
    && |Literals(pieces)| + Sizes(parts) == pos
    && (pieces == [] ==> pos == 0 && parts == [])
  }

  lemma AddLiteral(pieces: seq<Piece>, parts: seq<Attachment>, raw: Bytes, pos: nat, e: nat)
    requires Tiles(pieces, parts, raw, pos) && pos <= e <= |raw|
    ensures Tiles(pieces + [Literal(raw[pos..e])], parts, raw, e)
  {
    var all := pieces + [Literal(raw[pos..e])];
    assert all[..|all| - 1] == pieces;
    assert raw[..pos] + raw[pos..e] == raw[..e];
  }

  lemma AddRef(pieces: seq<Piece>, parts: seq<Attachment>, raw: Bytes, s: nat, e: nat, att: Attachment)
    requires Tiles(pieces, parts, raw, s) && s <= e <= |raw| && att.encoded == raw[s..e]
    ensures Tiles(pieces + [Ref(|parts|)], parts + [att], raw, e)
  {
    var all, parts' := pieces + [Ref(|parts|)], parts + [att];
    assert all[..|all| - 1] == pieces && parts'[..|parts|] == parts;
    MoreParts(pieces, parts, att);
    assert raw[..s] + raw[s..e] == raw[..e];
  }

  lemma {:induction false} MoreParts(pieces: seq<Piece>, parts: seq<Attachment>, att: Attachment)
    requires Refers(pieces, |parts|)
    ensures Rebuilt(pieces, parts + [att]) == Rebuilt(pieces, parts)
  {
    if pieces != [] {
      MoreParts(pieces[..|pieces| - 1], parts, att);
    }
  }
}
