/**
  The PROPFIND rewrite: DAV:write is taken out of every
  current-user-privilege-set whose response href names a read-only collection.

  The source is one loop over XML tokens with a stack, a skip depth and a few
  flags.  Scoped is what it is for, said on the tree: the href that counts is
  the first href child of the enclosing response that came before.  ScopedAgrees
  proves that the loop computes it for multistatus bodies (section 14.16 of
  RFC 4918; the privilege set is section 5.4 of RFC 3744).
*/
module Privileges {

  import opened Wrappers

  /** The four DAV: names the filter knows, and every other name. */
  datatype Name = Response | Href | PrivilegeSet | Write | Other(space: string, local: string)

  datatype Attr = Attr(space: string, local: string, value: string)

  datatype Token =
    | Start(name: Name, attrs: seq<Attr>)
    | End(name: Name)
    | Text(text: string)
    | Misc(body: string)  // comment, processing instruction or directive

  /** XML content, first child and next sibling. */
  datatype Forest =
    | Nil
    | Elem(name: Name, attrs: seq<Attr>, kids: Forest, rest: Forest)
    | Chars(text: string, rest: Forest)
    | Note(body: string, rest: Forest)

  /** The collections the user may only read, and url.PathUnescape (its input where that fails). */
  datatype Rules = Rules(readOnly: string -> bool, unescape: string -> string)

  function Flatten(f: Forest): seq<Token> {
    match f
    case Nil => []
    case Elem(n, attrs, kids, rest) => [Start(n, attrs)] + (Flatten(kids) + ([End(n)] + Flatten(rest)))
    case Chars(t, rest) => [Text(t)] + Flatten(rest)
    case Note(b, rest) => [Misc(b)] + Flatten(rest)
  }

  predicate IsDecl(a: Attr) {
    a.space == "xmlns" || (a.space == "" && a.local == "xmlns")
  }

  function Kept(attrs: seq<Attr>): seq<Attr> {
    if attrs == [] then []
    else Kept(attrs[..|attrs| - 1]) + if IsDecl(attrs[|attrs| - 1]) then [] else [attrs[|attrs| - 1]]
  }

  /** What is kept of a concatenation is what is kept of its parts, in that order. */
  lemma {:induction false} KeptInOrder(a: seq<Attr>, b: seq<Attr>)
    ensures Kept(a + b) == Kept(a) + Kept(b)
    decreases b
  {
    if b == [] {
      assert a + b == a;
    } else {
      assert (a + b)[..|a + b| - 1] == a + b[..|b| - 1];
      KeptInOrder(a, b[..|b| - 1]);
    }
  }

  method DropNamespaceDecls(attrs: seq<Attr>) returns (kept: seq<Attr>)
    ensures kept == Kept(attrs)
    ensures forall a :: a in kept <==> a in attrs && a.space != "xmlns" && (a.space != "" || a.local != "xmlns")
  {
    kept := [];
    for i := 0 to |attrs|
      invariant kept == Kept(attrs[..i])
      invariant forall a :: a in kept <==> a in attrs[..i] && !IsDecl(a)
    {
      assert attrs[..i + 1] == attrs[..i] + [attrs[i]];
      if !IsDecl(attrs[i]) {
        kept := kept + [attrs[i]];
      }
    }
    assert attrs[..|attrs|] == attrs;
  }

  // ------------------------------------------------------------ the token loop

  /** The flags that outlive an element. */
  datatype Ctx = Ctx(href: string, haveHref: bool, inHref: bool, privSets: int, changed: bool)

  datatype State = State(stack: seq<Name>, ctx: Ctx, skip: nat, out: seq<Token>)

  const START := State([], Ctx("", false, false, 0, false), 0, [])

  predicate Drops(n: Name, c: Ctx, r: Rules) {
    n == Write && c.privSets > 0 && c.haveHref && r.readOnly(c.href)
  }

  function Parent(stack: seq<Name>): Option<Name> {
    if stack == [] then None else Some(stack[|stack| - 1])
  }

  function Enter(c: Ctx, n: Name, parent: Option<Name>): Ctx {
    if n == Response then c.(href := "", haveHref := false)
    else if n == Href && parent == Some(Response) && !c.haveHref then c.(inHref := true)
    else if n == PrivilegeSet then c.(privSets := c.privSets + 1)
    else c
  }

  function Leave(c: Ctx, n: Name, r: Rules): Ctx {
    if n == Href && c.inHref then c.(inHref := false, haveHref := true, href := r.unescape(c.href))
    else if n == PrivilegeSet then c.(privSets := c.privSets - 1)
    else c
  }

  function Step(s: State, t: Token, r: Rules): State {
    match t
    case Start(n, attrs) =>
      if s.skip > 0 then s.(skip := s.skip + 1)
      else if Drops(n, s.ctx, r) then s.(skip := 1, ctx := s.ctx.(changed := true))
      else s.(stack := s.stack + [n], ctx := Enter(s.ctx, n, Parent(s.stack)), out := s.out + [Start(n, Kept(attrs))])
    case End(n) =>
      if s.skip > 0 then s.(skip := s.skip - 1)
      else s.(stack := if s.stack == [] then [] else s.stack[..|s.stack| - 1],
              ctx := Leave(s.ctx, n, r), out := s.out + [t])
    case Text(x) =>
      if s.skip > 0 then s
      else s.(ctx := if s.ctx.inHref then s.ctx.(href := s.ctx.href + x) else s.ctx, out := s.out + [t])
    case Misc(_) =>
      if s.skip > 0 then s else s.(out := s.out + [t])
  }

  function Run(s: State, toks: seq<Token>, r: Rules): State
    decreases |toks|
  {
    if toks == [] then s else Run(Step(s, toks[0], r), toks[1..], r)
  }

  method RewritePrivileges(toks: seq<Token>, r: Rules) returns (out: seq<Token>)
    ensures var s := Run(START, toks, r); out == if s.ctx.changed then s.out else toks
    ensures forall f :: toks == Flatten(f) ==>
              out == toks || (Pruned(Filter(f, None, START.ctx, r).forest, f) && out == Flatten(Filter(f, None, START.ctx, r).forest))
    ensures forall f :: toks == Flatten(f) && Shaped(f, None, false) ==>
              out == if Scoped(f, None, None, false, r) == Stripped(f) then toks
                     else Flatten(Scoped(f, None, None, false, r))
  {
    var stack: seq<Name>, href, haveHref, inHref, privSets, skip: nat, changed := [], "", false, false, 0, 0, false;
    var buf: seq<Token> := [];
    for i := 0 to |toks|
      invariant Run(State(stack, Ctx(href, haveHref, inHref, privSets, changed), skip, buf), toks[i..], r) == Run(START, toks, r)
    {
      assert toks[i..][0] == toks[i] && toks[i..][1..] == toks[i + 1..];
      match toks[i] {
        case Start(n, attrs) =>
          if skip > 0 {
            skip := skip + 1;
          } else if n == Write && privSets > 0 && haveHref && r.readOnly(href) {
            skip := 1;
            changed := true;
          } else {
            var parent := if |stack| > 0 then Some(stack[|stack| - 1]) else None;
            stack := stack + [n];
            if n == Response {
              href, haveHref := "", false;
            } else if n == Href && parent == Some(Response) && !haveHref {
              inHref := true;
            } else if n == PrivilegeSet {
              privSets := privSets + 1;
            }
            var kept := DropNamespaceDecls(attrs);
            buf := buf + [Start(n, kept)];
          }
        case End(n) =>
          if skip > 0 {
            skip := skip - 1;
          } else {
            if |stack| > 0 {
              stack := stack[..|stack| - 1];
            }
            if n == Href {
              if inHref {
                inHref, haveHref := false, true;
                href := r.unescape(href);
              }
            } else if n == PrivilegeSet {
              privSets := privSets - 1;
            }
            buf := buf + [toks[i]];
          }
        case Text(x) =>
          if skip == 0 {
            if inHref {
              href := href + x;
            }
            buf := buf + [toks[i]];
          }
        case Misc(_) =>
          if skip == 0 {
            buf := buf + [toks[i]];
          }
      }
    }
    assert toks[|toks|..] == [];
    out := if changed then buf else toks;
    RewriteMeaning(toks, r);
  }

  // ---------------------------------------------------- the loop on a tree

  datatype Filtered = Filtered(forest: Forest, ctx: Ctx)

  /** The loop's effect on the content of one element: flags thread from left to right. */
  function Filter(f: Forest, parent: Option<Name>, c: Ctx, r: Rules): Filtered {
    match f
    case Nil => Filtered(Nil, c)
    case Chars(t, rest) =>
      var x := Filter(rest, parent, if c.inHref then c.(href := c.href + t) else c, r);
      Filtered(Chars(t, x.forest), x.ctx)
    case Note(b, rest) =>
      var x := Filter(rest, parent, c, r);
      Filtered(Note(b, x.forest), x.ctx)
    case Elem(n, attrs, kids, rest) =>
      if Drops(n, c, r) then Filter(rest, parent, c.(changed := true), r)
      else
        var k := Filter(kids, Some(n), Enter(c, n, parent), r);
        var x := Filter(rest, parent, Leave(k.ctx, n, r), r);
        Filtered(Elem(n, Kept(attrs), k.forest, x.forest), x.ctx)
  }

  lemma {:induction false} RunConcat(s: State, a: seq<Token>, b: seq<Token>, r: Rules)
    ensures Run(s, a + b, r) == Run(Run(s, a, r), b, r)
    decreases |a|
  {
    if a == [] {
      assert a + b == b;
    } else {
      assert (a + b)[0] == a[0] && (a + b)[1..] == a[1..] + b;
      RunConcat(Step(s, a[0], r), a[1..], b, r);
    }
  }

  lemma RunOne(s: State, t: Token, b: seq<Token>, r: Rules)
    ensures Run(s, [t] + b, r) == Run(Step(s, t, r), b, r)
  {
    assert ([t] + b)[0] == t && ([t] + b)[1..] == b;
  }

  lemma {:induction false} RunSkips(f: Forest, s: State, r: Rules)
    requires s.skip > 0
    ensures Run(s, Flatten(f), r) == s
  {
    match f
    case Nil =>
    case Chars(t, rest) =>
      RunOne(s, Text(t), Flatten(rest), r);
      RunSkips(rest, s, r);
    case Note(b, rest) =>
      RunOne(s, Misc(b), Flatten(rest), r);
      RunSkips(rest, s, r);
    case Elem(n, attrs, kids, rest) =>
      var deeper := s.(skip := s.skip + 1);
      RunOne(s, Start(n, attrs), Flatten(kids) + ([End(n)] + Flatten(rest)), r);
      RunConcat(deeper, Flatten(kids), [End(n)] + Flatten(rest), r);
      RunSkips(kids, deeper, r);
      RunOne(deeper, End(n), Flatten(rest), r);
      RunSkips(rest, s, r);
  }

  lemma TokenAssoc(a: seq<Token>, b: seq<Token>, c: seq<Token>)
    ensures a + b + c == a + (b + c)
  {
  }

  /** Over balanced tokens the loop restores its stack and emits a balanced stream. */
  lemma {:induction false} RunFilters(f: Forest, s: State, r: Rules)
    requires s.skip == 0
    ensures var x := Filter(f, Parent(s.stack), s.ctx, r);
            Run(s, Flatten(f), r) == s.(ctx := x.ctx, out := s.out + Flatten(x.forest))
    decreases f, 1
  {
    var parent := Parent(s.stack);
    var x := Filter(f, parent, s.ctx, r);
    match f
    case Nil =>
      assert s.out + [] == s.out;
    case Chars(t, rest) =>
      RunOne(s, Text(t), Flatten(rest), r);
      RunFilters(rest, Step(s, Text(t), r), r);
      TokenAssoc(s.out, [Text(t)], Flatten(x.forest.rest));
    case Note(b, rest) =>
      RunOne(s, Misc(b), Flatten(rest), r);
      RunFilters(rest, Step(s, Misc(b), r), r);
      TokenAssoc(s.out, [Misc(b)], Flatten(x.forest.rest));
    case Elem(n, attrs, kids, rest) =>
      RunOne(s, Start(n, attrs), Flatten(kids) + ([End(n)] + Flatten(rest)), r);
      if Drops(n, s.ctx, r) {
        RunDrops(f, s, r);
      } else {
        RunKeeps(f, s, r);
      }
  }

  lemma RunDrops(f: Forest, s: State, r: Rules)
    requires s.skip == 0 && f.Elem? && Drops(f.name, s.ctx, r)
    ensures var x := Filter(f, Parent(s.stack), s.ctx, r);
            Run(s, Flatten(f), r) == s.(ctx := x.ctx, out := s.out + Flatten(x.forest))
    decreases f, 0
  {
    var n, kids, rest := f.name, f.kids, f.rest;
    var gone := s.(skip := 1, ctx := s.ctx.(changed := true));
    RunOne(s, Start(n, f.attrs), Flatten(kids) + ([End(n)] + Flatten(rest)), r);
    RunConcat(gone, Flatten(kids), [End(n)] + Flatten(rest), r);
    RunSkips(kids, gone, r);
    RunOne(gone, End(n), Flatten(rest), r);
    RunFilters(rest, gone.(skip := 0), r);
  }

  lemma RunKeeps(f: Forest, s: State, r: Rules)
    requires s.skip == 0 && f.Elem? && !Drops(f.name, s.ctx, r)
    ensures var x := Filter(f, Parent(s.stack), s.ctx, r);
            Run(s, Flatten(f), r) == s.(ctx := x.ctx, out := s.out + Flatten(x.forest))
    decreases f, 0
  {
    var n, kids, rest := f.name, f.kids, f.rest;
    var open := [Start(n, Kept(f.attrs))];
    var s1 := s.(stack := s.stack + [n], ctx := Enter(s.ctx, n, Parent(s.stack)), out := s.out + open);
    var k := Filter(kids, Some(n), s1.ctx, r);
    RunOne(s, Start(n, f.attrs), Flatten(kids) + ([End(n)] + Flatten(rest)), r);
    RunConcat(s1, Flatten(kids), [End(n)] + Flatten(rest), r);
    RunFilters(kids, s1, r);
    var s2 := s1.(ctx := k.ctx, out := s1.out + Flatten(k.forest));
    RunOne(s2, End(n), Flatten(rest), r);
    var s3 := Step(s2, End(n), r);
    assert s3.stack == s.stack;
    RunFilters(rest, s3, r);
    var x := Filter(rest, Parent(s.stack), s3.ctx, r);
    TokenAssoc(s.out, open, Flatten(k.forest));
    TokenAssoc(s.out, open + Flatten(k.forest), [End(n)]);
    TokenAssoc(s.out, open + Flatten(k.forest) + [End(n)], Flatten(x.forest));
    TokenAssoc(open + Flatten(k.forest), [End(n)], Flatten(x.forest));
    TokenAssoc(open, Flatten(k.forest), [End(n)] + Flatten(x.forest));
  }

  // -------------------------------------------------- what may be taken out

  function Stripped(f: Forest): Forest {
    match f
    case Nil => Nil
    case Chars(t, rest) => Chars(t, Stripped(rest))
    case Note(b, rest) => Note(b, Stripped(rest))
    case Elem(n, attrs, kids, rest) => Elem(n, Kept(attrs), Stripped(kids), Stripped(rest))
  }

  /** g is f without its xmlns declarations and without some of its write elements. */
  ghost predicate Pruned(g: Forest, f: Forest) {
    match f
    case Nil => g == Nil
    case Chars(t, rest) => g.Chars? && g.text == t && Pruned(g.rest, rest)
    case Note(b, rest) => g.Note? && g.body == b && Pruned(g.rest, rest)
    case Elem(n, attrs, kids, rest) =>
      || (n == Write && Pruned(g, rest))
      || (g.Elem? && g.name == n && g.attrs == Kept(attrs) && Pruned(g.kids, kids) && Pruned(g.rest, rest))
  }

  function Size(f: Forest): nat {
    match f
    case Nil => 0
    case Chars(_, rest) => 1 + Size(rest)
    case Note(_, rest) => 1 + Size(rest)
    case Elem(_, _, kids, rest) => 1 + Size(kids) + Size(rest)
  }

  /** The changed flag is right: it is raised exactly when the output lost an element. */
  lemma {:induction false} FilterChanges(f: Forest, parent: Option<Name>, c: Ctx, r: Rules)
    ensures var x := Filter(f, parent, c, r);
            && Pruned(x.forest, f) && Size(x.forest) <= Size(f) && (c.changed ==> x.ctx.changed)
            && (!x.ctx.changed ==> x.forest == Stripped(f))
            && (!c.changed && x.ctx.changed ==> Size(x.forest) < Size(f))
  {
    match f
    case Nil =>
    case Chars(t, rest) =>
      FilterChanges(rest, parent, if c.inHref then c.(href := c.href + t) else c, r);
    case Note(b, rest) =>
      FilterChanges(rest, parent, c, r);
    case Elem(n, attrs, kids, rest) =>
      if Drops(n, c, r) {
        FilterChanges(rest, parent, c.(changed := true), r);
      } else {
        FilterChanges(kids, Some(n), Enter(c, n, parent), r);
        var k := Filter(kids, Some(n), Enter(c, n, parent), r);
        FilterChanges(rest, parent, Leave(k.ctx, n, r), r);
      }
  }

  lemma {:induction false} StrippedSize(f: Forest)
    ensures Size(Stripped(f)) == Size(f)
  {
    match f
    case Nil =>
    case Chars(_, rest) => StrippedSize(rest);
    case Note(_, rest) => StrippedSize(rest);
    case Elem(_, _, kids, rest) => StrippedSize(kids); StrippedSize(rest);
  }

  // ------------------------------------------------------- what it is for

  function TextOf(f: Forest): string {
    match f
    case Nil => ""
    case Chars(t, rest) => t + TextOf(rest)
    case Note(_, rest) => TextOf(rest)
    case Elem(_, _, _, rest) => TextOf(rest)
  }

  predicate ScopeDrops(n: Name, known: Option<string>, inSet: bool, r: Rules) {
    n == Write && inSet && known.Some? && r.readOnly(known.value)
  }

  /**
    Every write element inside a privilege set goes if the enclosing response's
    first href, among the elements before, is read-only.  known is that href and
    reaches only downwards and to the right, never out of the response.
  */
  function Scoped(f: Forest, parent: Option<Name>, known: Option<string>, inSet: bool, r: Rules): Forest {
    match f
    case Nil => Nil
    case Chars(t, rest) => Chars(t, Scoped(rest, parent, known, inSet, r))
    case Note(b, rest) => Note(b, Scoped(rest, parent, known, inSet, r))
    case Elem(n, attrs, kids, rest) =>
      if ScopeDrops(n, known, inSet, r) then Scoped(rest, parent, known, inSet, r)
      else
        Elem(n, Kept(attrs),
             Scoped(kids, Some(n), if n == Response then None else known, inSet || n == PrivilegeSet, r),
             Scoped(rest, parent, KnownAfter(n, kids, parent, known, r), inSet, r))
  }

  function KnownAfter(n: Name, kids: Forest, parent: Option<Name>, known: Option<string>, r: Rules): Option<string> {
    if n == Href && parent == Some(Response) && known.None? then Some(r.unescape(TextOf(kids))) else known
  }

  /** No element in it. */
  predicate TextOnly(f: Forest) {
    match f
    case Nil => true
    case Elem(_, _, _, _) => false
    case Chars(_, rest) => TextOnly(rest)
    case Note(_, rest) => TextOnly(rest)
  }

  /** A multistatus body: responses are not nested, hold the privilege sets, and their hrefs are text. */
  predicate Shaped(f: Forest, parent: Option<Name>, inResponse: bool) {
    match f
    case Nil => true
    case Chars(_, rest) => Shaped(rest, parent, inResponse)
    case Note(_, rest) => Shaped(rest, parent, inResponse)
    case Elem(n, _, kids, rest) =>
      && (n == Response ==> !inResponse)
      && (n == PrivilegeSet ==> inResponse)
      && (n == Href && parent == Some(Response) ==> TextOnly(kids))
      && Shaped(kids, Some(n), inResponse || n == Response)
      && Shaped(rest, parent, inResponse)
  }

  /** The flags say what the scope says.  Outside a response a stale href may linger. */
  predicate Agrees(c: Ctx, known: Option<string>, inSet: bool, inResponse: bool) {
    && !c.inHref && c.privSets >= 0
    && (c.privSets > 0 <==> inSet)
    && (if inResponse
        then c.haveHref == known.Some? && c.href == if known.Some? then known.value else ""
        else known.None? && !inSet)
  }

  lemma {:induction false} HrefText(f: Forest, parent: Option<Name>, c: Ctx, known: Option<string>, inSet: bool,
                                    r: Rules)
    requires TextOnly(f)
    ensures var x := Filter(f, parent, c, r);
            && x.forest == Scoped(f, parent, known, inSet, r)
            && x.ctx == if c.inHref then c.(href := c.href + TextOf(f)) else c
  {
    match f
    case Nil =>
      assert c.href + "" == c.href;
    case Chars(t, rest) =>
      HrefText(rest, parent, if c.inHref then c.(href := c.href + t) else c, known, inSet, r);
      assert c.href + t + TextOf(rest) == c.href + (t + TextOf(rest));
    case Note(_, rest) =>
      HrefText(rest, parent, c, known, inSet, r);
  }

  /** The href known after the siblings f. */
  function KnownAtEnd(f: Forest, parent: Option<Name>, known: Option<string>, inSet: bool, r: Rules): Option<string> {
    match f
    case Nil => known
    case Chars(_, rest) => KnownAtEnd(rest, parent, known, inSet, r)
    case Note(_, rest) => KnownAtEnd(rest, parent, known, inSet, r)
    case Elem(n, _, kids, rest) => KnownAtEnd(rest, parent, KnownAfter(n, kids, parent, known, r), inSet, r)
  }

  lemma {:induction false} KnownDeeper(f: Forest, parent: Option<Name>, known: Option<string>, inSet: bool, r: Rules)
    requires parent != Some(Response)
    ensures KnownAtEnd(f, parent, known, inSet, r) == known
  {
    match f
    case Nil =>
    case Chars(_, rest) => KnownDeeper(rest, parent, known, inSet, r);
    case Note(_, rest) => KnownDeeper(rest, parent, known, inSet, r);
    case Elem(n, _, kids, rest) => KnownDeeper(rest, parent, known, inSet, r);
  }

  /** The content of one kept element, and the flags when it closes. */
  lemma ElementAgrees(f: Forest, parent: Option<Name>, c: Ctx, known: Option<string>, inSet: bool, inResponse: bool,
                      r: Rules)
    requires f.Elem? && Shaped(f, parent, inResponse) && Agrees(c, known, inSet, inResponse) && !Drops(f.name, c, r)
    requires parent == Some(Response) ==> inResponse
    ensures var k := Filter(f.kids, Some(f.name), Enter(c, f.name, parent), r);
            && k.forest == Scoped(f.kids, Some(f.name), if f.name == Response then None else known,
                                  inSet || f.name == PrivilegeSet, r)
            && Agrees(Leave(k.ctx, f.name, r), KnownAfter(f.name, f.kids, parent, known, r), inSet, inResponse)
            && Leave(k.ctx, f.name, r).privSets == c.privSets
    decreases f, 0
  {
    var n, kids := f.name, f.kids;
    var c1 := Enter(c, n, parent);
    var known1 := if n == Response then None else known;
    var inSet1 := inSet || n == PrivilegeSet;
    if c1.inHref {
      HrefText(kids, Some(n), c1, known1, inSet1, r);
      assert "" + TextOf(kids) == TextOf(kids);
    } else {
      ScopedAgrees(kids, Some(n), c1, known1, inSet1, inResponse || n == Response, r);
      if n != Response {
        KnownDeeper(kids, Some(n), known1, inSet1, r);
      }
    }
  }

  /** On a multistatus body the loop takes out exactly what Scoped takes out. */
  lemma {:induction false} ScopedAgrees(f: Forest, parent: Option<Name>, c: Ctx, known: Option<string>, inSet: bool,
                                    inResponse: bool, r: Rules)
    requires Shaped(f, parent, inResponse) && Agrees(c, known, inSet, inResponse)
    requires parent == Some(Response) ==> inResponse
    ensures var x := Filter(f, parent, c, r);
            && x.forest == Scoped(f, parent, known, inSet, r)
            && x.ctx.privSets == c.privSets
            && Agrees(x.ctx, KnownAtEnd(f, parent, known, inSet, r), inSet, inResponse)
    decreases f, 1
  {
    match f
    case Nil =>
    case Chars(_, rest) =>
      ScopedAgrees(rest, parent, c, known, inSet, inResponse, r);
    case Note(_, rest) =>
      ScopedAgrees(rest, parent, c, known, inSet, inResponse, r);
    case Elem(n, _, kids, rest) =>
      if Drops(n, c, r) {
        ScopedAgrees(rest, parent, c.(changed := true), known, inSet, inResponse, r);
      } else {
        ElementAgrees(f, parent, c, known, inSet, inResponse, r);
        var k := Filter(kids, Some(n), Enter(c, n, parent), r);
        ScopedAgrees(rest, parent, Leave(k.ctx, n, r), KnownAfter(n, kids, parent, known, r), inSet, inResponse, r);
      }
  }

  lemma RewriteMeaning(toks: seq<Token>, r: Rules)
    ensures var s := Run(START, toks, r);
            var out := if s.ctx.changed then s.out else toks;
            forall f :: toks == Flatten(f) ==>
              && (out == toks || (Pruned(Filter(f, None, START.ctx, r).forest, f) && out == Flatten(Filter(f, None, START.ctx, r).forest)))
              && (Shaped(f, None, false) ==>
                    out == if Scoped(f, None, None, false, r) == Stripped(f) then toks
                           else Flatten(Scoped(f, None, None, false, r)))
  {
    forall f | toks == Flatten(f)
      ensures var s := Run(START, toks, r);
              var x := Filter(f, None, START.ctx, r);
              && s.ctx == x.ctx && s.out == Flatten(x.forest) && Pruned(x.forest, f)
              && (Shaped(f, None, false) ==> x.forest == Scoped(f, None, None, false, r))
              && (s.ctx.changed <==> x.forest != Stripped(f))
    {
      RunFilters(f, START, r);
      var x := Filter(f, None, START.ctx, r);
      assert [] + Flatten(x.forest) == Flatten(x.forest);
      FilterChanges(f, None, START.ctx, r);
      StrippedSize(f);
      if Shaped(f, None, false) {
        ScopedAgrees(f, None, START.ctx, None, false, false, r);
      }
    }
  }

  // ------------------------------------------------------------ exactly when

  /** At every write element the loop's flags and the scope come to the same decision. */
  predicate Alike(f: Forest, parent: Option<Name>, c: Ctx, known: Option<string>, inSet: bool, r: Rules) {
    match f
    case Nil => true
    case Chars(t, rest) => Alike(rest, parent, if c.inHref then c.(href := c.href + t) else c, known, inSet, r)
    case Note(_, rest) => Alike(rest, parent, c, known, inSet, r)
    case Elem(n, _, kids, rest) =>
      && Drops(n, c, r) == ScopeDrops(n, known, inSet, r)
      && if Drops(n, c, r) then Alike(rest, parent, c.(changed := true), known, inSet, r)
         else
           && Alike(kids, Some(n), Enter(c, n, parent), if n == Response then None else known, inSet || n == PrivilegeSet, r)
           && Alike(rest, parent, Leave(Filter(kids, Some(n), Enter(c, n, parent), r).ctx, n, r),
                    KnownAfter(n, kids, parent, known, r), inSet, r)
  }

  /** Where write elements are dropped, what is left does not begin with one. */
  lemma {:induction false} DropsLeaveNoWrite(f: Forest, parent: Option<Name>, c: Ctx, known: Option<string>,
                                    inSet: bool, r: Rules)
    ensures Drops(Write, c, r) && Filter(f, parent, c, r).forest.Elem? ==> Filter(f, parent, c, r).forest.name != Write
    ensures ScopeDrops(Write, known, inSet, r) && Scoped(f, parent, known, inSet, r).Elem? ==>
              Scoped(f, parent, known, inSet, r).name != Write
  {
    if f.Elem? && f.name == Write {
      DropsLeaveNoWrite(f.rest, parent, c.(changed := true), known, inSet, r);
    }
  }

  /** The loop gives what Scoped gives exactly when they judge every write element alike. */
  lemma {:induction false} AlikeIff(f: Forest, parent: Option<Name>, c: Ctx, known: Option<string>, inSet: bool,
                                    r: Rules)
    ensures Filter(f, parent, c, r).forest == Scoped(f, parent, known, inSet, r) <==> Alike(f, parent, c, known, inSet, r)
  {
    match f
    case Nil =>
    case Chars(t, rest) => AlikeIff(rest, parent, if c.inHref then c.(href := c.href + t) else c, known, inSet, r);
    case Note(_, rest) => AlikeIff(rest, parent, c, known, inSet, r);
    case Elem(n, _, kids, rest) =>
      DropsLeaveNoWrite(f, parent, c, known, inSet, r);
      if Drops(n, c, r) == ScopeDrops(n, known, inSet, r) {
        if Drops(n, c, r) {
          AlikeIff(rest, parent, c.(changed := true), known, inSet, r);
        } else {
          var c1 := Enter(c, n, parent);
          AlikeIff(kids, Some(n), c1, if n == Response then None else known, inSet || n == PrivilegeSet, r);
          AlikeIff(rest, parent, Leave(Filter(kids, Some(n), c1, r).ctx, n, r), KnownAfter(n, kids, parent, known, r), inSet, r);
        }
      }
  }

  /** Which a multistatus body always meets. */
  lemma ShapedIsAlike(f: Forest, r: Rules)
    requires Shaped(f, None, false)
    ensures Alike(f, None, START.ctx, None, false, r)
  {
    ScopedAgrees(f, None, START.ctx, None, false, false, r);
    AlikeIff(f, None, START.ctx, None, false, r);
  }

  // ------------------------------------------------- exactly when, without the rules

  /** The loop's flags with the href as it is written: the rules do not enter. */
  datatype Sym = Sym(raw: string, have: bool, inHref: bool, sets: int)

  function SymEnter(y: Sym, n: Name, parent: Option<Name>): Sym {
    if n == Response then y.(raw := "", have := false)
    else if n == Href && parent == Some(Response) && !y.have then y.(inHref := true)
    else if n == PrivilegeSet then y.(sets := y.sets + 1)
    else y
  }

  function SymLeave(y: Sym, n: Name): Sym {
    if n == Href && y.inHref then y.(inHref := false, have := true)
    else if n == PrivilegeSet then y.(sets := y.sets - 1)
    else y
  }

  function SymText(y: Sym, t: string): Sym {
    if y.inHref then y.(raw := y.raw + t) else y
  }

  function SymAfter(f: Forest, parent: Option<Name>, y: Sym): Sym {
    match f
    case Nil => y
    case Chars(t, rest) => SymAfter(rest, parent, SymText(y, t))
    case Note(_, rest) => SymAfter(rest, parent, y)
    case Elem(n, _, kids, rest) => SymAfter(rest, parent, SymLeave(SymAfter(kids, Some(n), SymEnter(y, n, parent)), n))
  }

  /** The href in scope after an element, as it is written. */
  function RawAfter(n: Name, kids: Forest, parent: Option<Name>, raw: Option<string>): Option<string> {
    if n == Href && parent == Some(Response) && raw.None? then Some(TextOf(kids)) else raw
  }

  /** The href that the flags put a write element under, and the one its scope does. */
  function Flagged(y: Sym): Option<string> {
    if y.sets > 0 && y.have then Some(y.raw) else None
  }

  function InScope(raw: Option<string>, inSet: bool): Option<string> {
    if inSet then raw else None
  }

  /** At every write element both are the same text, or there is none on either side. */
  predicate Fair(f: Forest, parent: Option<Name>, y: Sym, raw: Option<string>, inSet: bool) {
    match f
    case Nil => true
    case Chars(t, rest) => Fair(rest, parent, SymText(y, t), raw, inSet)
    case Note(_, rest) => Fair(rest, parent, y, raw, inSet)
    case Elem(n, _, kids, rest) =>
      && (n == Write ==> Flagged(y) == InScope(raw, inSet))
      && Fair(kids, Some(n), SymEnter(y, n, parent), if n == Response then None else raw, inSet || n == PrivilegeSet)
      && Fair(rest, parent, SymLeave(SymAfter(kids, Some(n), SymEnter(y, n, parent)), n), RawAfter(n, kids, parent, raw), inSet)
  }

  /** A privilege has no content (section 5.4 of RFC 3744). */
  predicate EmptyWrites(f: Forest) {
    match f
    case Nil => true
    case Chars(_, rest) => EmptyWrites(rest)
    case Note(_, rest) => EmptyWrites(rest)
    case Elem(n, _, kids, rest) => (n == Write ==> kids == Nil) && EmptyWrites(kids) && EmptyWrites(rest)
  }

  /** c is y under the rules r. */
  predicate Stands(c: Ctx, y: Sym, r: Rules) {
    && c.haveHref == y.have && c.inHref == y.inHref && c.privSets == y.sets && (y.inHref ==> !y.have)
    && c.href == if y.have then r.unescape(y.raw) else y.raw
  }

  function Meaning(raw: Option<string>, r: Rules): Option<string> {
    if raw.None? then None else Some(r.unescape(raw.value))
  }

  /** Which write elements are dropped does not show in the flags. */
  lemma {:induction false} FlagsFollow(f: Forest, parent: Option<Name>, c: Ctx, y: Sym, r: Rules)
    requires EmptyWrites(f) && Stands(c, y, r)
    ensures Stands(Filter(f, parent, c, r).ctx, SymAfter(f, parent, y), r)
  {
    match f
    case Nil =>
    case Chars(t, rest) => FlagsFollow(rest, parent, if c.inHref then c.(href := c.href + t) else c, SymText(y, t), r);
    case Note(_, rest) => FlagsFollow(rest, parent, c, y, r);
    case Elem(n, _, kids, rest) =>
      if Drops(n, c, r) {
        FlagsFollow(rest, parent, c.(changed := true), y, r);
      } else {
        var c1, y1 := Enter(c, n, parent), SymEnter(y, n, parent);
        FlagsFollow(kids, Some(n), c1, y1, r);
        FlagsFollow(rest, parent, Leave(Filter(kids, Some(n), c1, r).ctx, n, r), SymLeave(SymAfter(kids, Some(n), y1), n), r);
      }
  }

  lemma {:induction false} FairIsAlike(f: Forest, parent: Option<Name>, c: Ctx, y: Sym, raw: Option<string>,
                                    inSet: bool, r: Rules)
    requires EmptyWrites(f) && Stands(c, y, r) && Fair(f, parent, y, raw, inSet)
    ensures Alike(f, parent, c, Meaning(raw, r), inSet, r)
    decreases f, 1
  {
    match f
    case Nil =>
    case Chars(t, rest) => FairIsAlike(rest, parent, if c.inHref then c.(href := c.href + t) else c, SymText(y, t), raw, inSet, r);
    case Note(_, rest) => FairIsAlike(rest, parent, c, y, raw, inSet, r);
    case Elem(n, _, kids, rest) =>
      assert Drops(n, c, r) == ScopeDrops(n, Meaning(raw, r), inSet, r);
      if Drops(n, c, r) {
        FairIsAlike(rest, parent, c.(changed := true), y, raw, inSet, r);
      } else {
        FairElement(f, parent, c, y, raw, inSet, r);
      }
  }

  lemma {:induction false} FairElement(f: Forest, parent: Option<Name>, c: Ctx, y: Sym, raw: Option<string>,
                                    inSet: bool, r: Rules)
    requires f.Elem? && EmptyWrites(f) && Stands(c, y, r) && Fair(f, parent, y, raw, inSet)
    ensures Alike(f.kids, Some(f.name), Enter(c, f.name, parent), if f.name == Response then None else Meaning(raw, r),
                  inSet || f.name == PrivilegeSet, r)
    ensures Alike(f.rest, parent, Leave(Filter(f.kids, Some(f.name), Enter(c, f.name, parent), r).ctx, f.name, r),
                  KnownAfter(f.name, f.kids, parent, Meaning(raw, r), r), inSet, r)
    decreases f, 0
  {
    var n, kids, c1, y1 := f.name, f.kids, Enter(c, f.name, parent), SymEnter(y, f.name, parent);
    assert KnownAfter(n, kids, parent, Meaning(raw, r), r) == Meaning(RawAfter(n, kids, parent, raw), r);
    FairIsAlike(kids, Some(n), c1, y1, if n == Response then None else raw, inSet || n == PrivilegeSet, r);
    FlagsFollow(kids, Some(n), c1, y1, r);
    FairIsAlike(f.rest, parent, Leave(Filter(kids, Some(n), c1, r).ctx, n, r), SymLeave(SymAfter(kids, Some(n), y1), n),
                RawAfter(n, kids, parent, raw), inSet, r);
  }

  /** Only the collection x is read-only, and hrefs are taken as they are. */
  function OnlyReadOnly(x: string): Rules { Rules(s => s == x, s => s) }

  function CtxOf(y: Sym, changed: bool): Ctx { Ctx(y.raw, y.have, y.inHref, y.sets, changed) }

  /** Where a write element is not judged fairly, some rules tell. */
  lemma {:induction false} UnfairTells(f: Forest, parent: Option<Name>, y: Sym, raw: Option<string>, inSet: bool)
    returns (x: string)
    requires EmptyWrites(f) && (y.inHref ==> !y.have) && !Fair(f, parent, y, raw, inSet)
    ensures forall changed :: !Alike(f, parent, CtxOf(y, changed), raw, inSet, OnlyReadOnly(x))
    decreases f, 1
  {
    match f
    case Chars(t, rest) =>
      x := UnfairTells(rest, parent, SymText(y, t), raw, inSet);
      forall changed ensures !Alike(f, parent, CtxOf(y, changed), raw, inSet, OnlyReadOnly(x)) {
        var c := CtxOf(y, changed);
        assert (if c.inHref then c.(href := c.href + t) else c) == CtxOf(SymText(y, t), changed);
      }
    case Note(_, rest) => x := UnfairTells(rest, parent, y, raw, inSet);
    case Elem(n, _, kids, rest) =>
      if n == Write && Flagged(y) != InScope(raw, inSet) {
        x := if Flagged(y).Some? then Flagged(y).value else raw.value;
      } else if !Fair(kids, Some(n), SymEnter(y, n, parent), if n == Response then None else raw, inSet || n == PrivilegeSet) {
        x := UnfairKids(f, parent, y, raw, inSet);
      } else {
        x := UnfairRest(f, parent, y, raw, inSet);
      }
  }

  lemma {:induction false} UnfairKids(f: Forest, parent: Option<Name>, y: Sym, raw: Option<string>, inSet: bool)
    returns (x: string)
    requires f.Elem? && EmptyWrites(f) && (y.inHref ==> !y.have)
    requires !Fair(f.kids, Some(f.name), SymEnter(y, f.name, parent), if f.name == Response then None else raw,
                   inSet || f.name == PrivilegeSet)
    ensures forall changed :: !Alike(f, parent, CtxOf(y, changed), raw, inSet, OnlyReadOnly(x))
    decreases f, 0
  {
    var n, y1 := f.name, SymEnter(y, f.name, parent);
    x := UnfairTells(f.kids, Some(n), y1, if n == Response then None else raw, inSet || n == PrivilegeSet);
    forall changed ensures !Alike(f, parent, CtxOf(y, changed), raw, inSet, OnlyReadOnly(x)) {
      assert Enter(CtxOf(y, changed), n, parent) == CtxOf(y1, changed);
    }
  }

  lemma {:induction false} UnfairRest(f: Forest, parent: Option<Name>, y: Sym, raw: Option<string>, inSet: bool)
    returns (x: string)
    requires f.Elem? && EmptyWrites(f) && (y.inHref ==> !y.have)
    requires var y' := SymLeave(SymAfter(f.kids, Some(f.name), SymEnter(y, f.name, parent)), f.name);
             !Fair(f.rest, parent, y', RawAfter(f.name, f.kids, parent, raw), inSet)
    ensures forall changed :: !Alike(f, parent, CtxOf(y, changed), raw, inSet, OnlyReadOnly(x))
    decreases f, 0
  {
    var n, y1 := f.name, SymEnter(y, f.name, parent);
    FlagsFollow(f.kids, Some(n), CtxOf(y1, false), y1, OnlyReadOnly(""));
    x := UnfairTells(f.rest, parent, SymLeave(SymAfter(f.kids, Some(n), y1), n), RawAfter(n, f.kids, parent, raw), inSet);
    forall changed ensures !Alike(f, parent, CtxOf(y, changed), raw, inSet, OnlyReadOnly(x)) {
      var more := AlikeRest(f, parent, y, changed, raw, inSet, x);
    }
  }

  /** What is alike is alike in the rest, whatever was dropped so far. */
  lemma AlikeRest(f: Forest, parent: Option<Name>, y: Sym, changed: bool, raw: Option<string>, inSet: bool, x: string)
    returns (more: bool)
    requires f.Elem? && EmptyWrites(f) && (y.inHref ==> !y.have)
    ensures var y' := SymLeave(SymAfter(f.kids, Some(f.name), SymEnter(y, f.name, parent)), f.name);
            Alike(f, parent, CtxOf(y, changed), raw, inSet, OnlyReadOnly(x)) ==>
              Alike(f.rest, parent, CtxOf(y', more), RawAfter(f.name, f.kids, parent, raw), inSet, OnlyReadOnly(x))
  {
    var n, r, c := f.name, OnlyReadOnly(x), CtxOf(y, changed);
    var y1 := SymEnter(y, n, parent);
    var y2 := SymAfter(f.kids, Some(n), y1);
    assert KnownAfter(n, f.kids, parent, raw, r) == RawAfter(n, f.kids, parent, raw);
    if Drops(n, c, r) {
      more := true;
      assert c.(changed := true) == CtxOf(SymLeave(y2, n), true);
    } else {
      assert Enter(c, n, parent) == CtxOf(y1, changed);
      FlagsFollow(f.kids, Some(n), CtxOf(y1, changed), y1, r);
      var k := Filter(f.kids, Some(n), CtxOf(y1, changed), r).ctx;
      more := k.changed;
      assert Leave(k, n, r) == CtxOf(SymLeave(y2, n), more);
    }
  }

  const START_SYM := Sym("", false, false, 0)

  /**
    For every set of rules the loop gives what the scope gives, exactly when at
    every write element the href the flags hold is the one in scope.
  */
  lemma FairIff(f: Forest)
    requires EmptyWrites(f)
    ensures (forall r: Rules :: Filter(f, None, START.ctx, r).forest == Scoped(f, None, None, false, r)) <==>
            Fair(f, None, START_SYM, None, false)
  {
    if Fair(f, None, START_SYM, None, false) {
      forall r: Rules ensures Filter(f, None, START.ctx, r).forest == Scoped(f, None, None, false, r) {
        FairIsAlike(f, None, START.ctx, START_SYM, None, false, r);
        AlikeIff(f, None, START.ctx, None, false, r);
      }
    } else {
      var x := UnfairTells(f, None, START_SYM, None, false);
      assert CtxOf(START_SYM, false) == START.ctx;
      AlikeIff(f, None, START.ctx, None, false, OnlyReadOnly(x));
      assert Filter(f, None, START.ctx, OnlyReadOnly(x)).forest != Scoped(f, None, None, false, OnlyReadOnly(x));
    }
  }

  // ------------------------------------------- each clause of the shape is needed

  // None of these comes out of a PROPFIND, which is all that the filter sees: nested
  // responses answer an expand-property REPORT (section 3.8 of RFC 3253), a
  // privilege set stands in a response, and an href holds text.

  function WriteSet(): Forest { Elem(PrivilegeSet, [], Elem(Write, [], Nil, Nil), Nil) }

  /** The set is judged by href, which the loop has and the scope has not, or the other way round. */
  lemma SetJudged(parent: Option<Name>, c: Ctx, known: Option<string>, r: Rules)
    requires c.privSets == 0
    ensures Filter(WriteSet(), parent, c, r).forest ==
              if c.haveHref && r.readOnly(c.href) then Elem(PrivilegeSet, [], Nil, Nil) else WriteSet()
    ensures Scoped(WriteSet(), parent, known, false, r) ==
              if known.Some? && r.readOnly(known.value) then Elem(PrivilegeSet, [], Nil, Nil) else WriteSet()
  {
    assert Kept([]) == [];
    var c1, write := c.(privSets := 1), Elem(Write, [], Nil, Nil);
    assert Filter(write, Some(PrivilegeSet), c1, r).forest == if c.haveHref && r.readOnly(c.href) then Nil else write;
    assert Scoped(write, Some(PrivilegeSet), known, true, r) == if known.Some? && r.readOnly(known.value) then Nil else write;
  }

  lemma HrefKnown(h: string, rest: Forest, r: Rules)
    ensures var c, c2 := START.ctx, Ctx(r.unescape(h), true, false, 0, false);
            && Filter(Elem(Href, [], Chars(h, Nil), rest), Some(Response), c, r)
               == Filtered(Elem(Href, [], Chars(h, Nil), Filter(rest, Some(Response), c2, r).forest),
                           Filter(rest, Some(Response), c2, r).ctx)
            && Scoped(Elem(Href, [], Chars(h, Nil), rest), Some(Response), None, false, r)
               == Elem(Href, [], Chars(h, Nil), Scoped(rest, Some(Response), Some(r.unescape(h)), false, r))
  {
    assert "" + h == h && h + "" == h && Kept([]) == [];
    var c1 := Ctx("", false, true, 0, false);
    assert Filter(Chars(h, Nil), Some(Href), c1, r) == Filtered(Chars(h, Nil), Ctx(h, false, true, 0, false));
    assert Scoped(Chars(h, Nil), Some(Href), None, false, r) == Chars(h, Nil);
    assert TextOf(Chars(h, Nil)) == h;
  }

  /** A set after a read-only response is judged by that response's href. */
  lemma StaleHref(r: Rules, h: string)
    requires r.readOnly(r.unescape(h))
    ensures var href := Elem(Href, [], Chars(h, Nil), Nil);
            var f := Elem(Response, [], href, WriteSet());
            && !Shaped(f, None, false)
            && Scoped(f, None, None, false, r) == f
            && Filter(f, None, START.ctx, r).forest == Elem(Response, [], href, Elem(PrivilegeSet, [], Nil, Nil))
  {
    assert Kept([]) == [];
    HrefKnown(h, Nil, r);
    SetJudged(None, Ctx(r.unescape(h), true, false, 0, false), None, r);
  }

  /** A response inside another makes the loop forget the outer href: a write that should go stays. */
  lemma NestedResponse(r: Rules, h: string)
    requires r.readOnly(r.unescape(h))
    ensures var inner := Elem(Response, [], Nil, WriteSet());
            var f := Elem(Response, [], Elem(Href, [], Chars(h, Nil), inner), Nil);
            && !Shaped(f, None, false)
            && Filter(f, None, START.ctx, r).forest == f
            && Scoped(f, None, None, false, r)
               == Elem(Response, [], Elem(Href, [], Chars(h, Nil), Elem(Response, [], Nil, Elem(PrivilegeSet, [], Nil, Nil))), Nil)
  {
    assert Kept([]) == [];
    var inner := Elem(Response, [], Nil, WriteSet());
    HrefKnown(h, inner, r);
    SetJudged(Some(Response), Ctx("", false, false, 0, false), Some(r.unescape(h)), r);
    assert !Shaped(inner, Some(Response), true);
  }

  /** Text of an element inside a href counts for the loop, not for the scope. */
  lemma MarkupInHref(r: Rules, h: string)
    requires r.readOnly(r.unescape(h)) && !r.readOnly(r.unescape(""))
    ensures var x := Elem(Other("", "x"), [], Chars(h, Nil), Nil);
            var f := Elem(Response, [], Elem(Href, [], x, WriteSet()), Nil);
            && !Shaped(f, None, false)
            && Scoped(f, None, None, false, r) == f
            && Filter(f, None, START.ctx, r).forest
               == Elem(Response, [], Elem(Href, [], x, Elem(PrivilegeSet, [], Nil, Nil)), Nil)
  {
    assert "" + h == h && Kept([]) == [];
    var x := Elem(Other("", "x"), [], Chars(h, Nil), Nil);
    var c1 := Ctx("", false, true, 0, false);
    assert Filter(Chars(h, Nil), Some(Other("", "x")), c1, r) == Filtered(Chars(h, Nil), Ctx(h, false, true, 0, false));
    assert Filter(x, Some(Href), c1, r) == Filtered(x, Ctx(h, false, true, 0, false));
    assert Scoped(x, Some(Href), None, false, r) == x by {
      assert Scoped(Chars(h, Nil), Some(Other("", "x")), None, false, r) == Chars(h, Nil);
    }
    assert TextOf(x) == "";
    SetJudged(Some(Response), Ctx(r.unescape(h), true, false, 0, false), Some(r.unescape("")), r);
    assert !TextOnly(x);
  }
}
