/**
  smtp.trusted_networks across a reload: does the new list trust a source the
  old one did not?

  An address and a network number are bit sequences, most significant bit
  first.  Go's IPNet.Contains first rewrites a v4-mapped IPv6 value to its four
  bytes, on both sides; that rewriting is kept here, because it makes prefix
  arithmetic and set containment part ways in one place (see EDGE_ONES).
*/
module TrustedNets {

  type Bits = seq<bool>

  predicate IsAddress(a: Bits) { |a| == 32 || |a| == 128 }

  /** A network as net.ParseCIDR returns it: its number is masked. */
  datatype IpNet = IpNet(ip: Bits, ones: nat)

  predicate Valid(n: IpNet) {
    && IsAddress(n.ip)
    && n.ones <= |n.ip|
    && forall i :: n.ones <= i < |n.ip| ==> !n.ip[i]
  }

  /** ::ffff:a.b.c.d */
  predicate Mapped(a: Bits) {
    && |a| == 128
    && (forall i :: 0 <= i < 80 ==> !a[i])
    && (forall i :: 80 <= i < 96 ==> a[i])
  }

  /** net.IP.To4, and the address itself where To4 gives nil. */
  function Short(a: Bits): Bits {
    if Mapped(a) then a[96..] else a
  }

  /** The prefix length once a mapped network's mask has lost its first 12 bytes. */
  function ShortOnes(n: IpNet): nat {
    if !Mapped(n.ip) then n.ones else if n.ones <= 96 then 0 else n.ones - 96
  }

  predicate Contains(n: IpNet, a: Bits)
    requires Valid(n)
  {
    && |Short(a)| == |Short(n.ip)|
    && Short(a)[..ShortOnes(n)] == Short(n.ip)[..ShortOnes(n)]
  }

  /** The n bits of b from bit i on are those of p from bit j on. */
  predicate StartsAt(b: Bits, i: nat, p: Bits, j: nat, n: nat) {
    i + n <= |b| && j + n <= |p| && b[i..i + n] == p[j..j + n]
  }

  /**
    The addresses of a network, bit by bit: an IPv4 network holds the addresses
    with its prefix, plain or mapped; an IPv6 one those with its prefix that are not
    mapped; and one in the mapped block the IPv4 addresses it maps.
  */
  lemma ContainsIff(n: IpNet, a: Bits)
    requires Valid(n) && IsAddress(a)
    ensures Contains(n, a) <==>
            if |n.ip| == 32 then
              if |a| == 32 then StartsAt(a, 0, n.ip, 0, n.ones) else Mapped(a) && StartsAt(a, 96, n.ip, 0, n.ones)
            else if !Mapped(n.ip) then
              |a| == 128 && !Mapped(a) && StartsAt(a, 0, n.ip, 0, n.ones)
            else
              var ones := if n.ones < 96 then 0 else n.ones - 96;
              if |a| == 32 then StartsAt(a, 0, n.ip, 96, ones) else Mapped(a) && StartsAt(a, 96, n.ip, 96, ones)
  {
    var ones := ShortOnes(n);
    assert Mapped(a) && ones <= 32 ==> Short(a)[..ones] == a[96..96 + ones];
    assert Mapped(n.ip) ==> Short(n.ip)[..ones] == n.ip[96..96 + ones];
  }

  predicate AllValid(nets: seq<IpNet>) {
    forall n :: n in nets ==> Valid(n)
  }

  predicate Trusts(nets: seq<IpNet>, a: Bits)
    requires AllValid(nets)
  {
    exists n :: n in nets && Contains(n, a)
  }

  /** The test of the inner loop. */
  predicate Covered(o: IpNet, n: IpNet)
    requires Valid(o) && Valid(n)
  {
    |o.ip| == |n.ip| && o.ones <= n.ones && Contains(o, n.ip)
  }

  predicate SomeCovers(prior: seq<IpNet>, n: IpNet)
    requires AllValid(prior) && Valid(n)
  {
    exists o :: o in prior && Covered(o, n)
  }

  /** Every address of n is an address of o. */
  ghost predicate Inside(n: IpNet, o: IpNet)
    requires Valid(n) && Valid(o)
  {
    forall a: Bits :: IsAddress(a) && Contains(n, a) ==> Contains(o, a)
  }

  method TrustWidened(prior: seq<IpNet>, next: seq<IpNet>) returns (widened: bool)
    requires AllValid(prior) && AllValid(next)
    ensures widened <==> exists n :: n in next && forall o :: o in prior ==> !Covered(o, n)
    ensures !widened ==> forall a: Bits :: IsAddress(a) && Trusts(next, a) ==> Trusts(prior, a)
    ensures AllPlain(prior + next) ==>
              (widened <==> exists n :: n in next && forall o :: o in prior ==> !Inside(n, o))
    ensures (widened <==> NewTrust(prior, next)) <==>
              ((forall n :: n in next ==> SomeCovers(prior, n)) || exists n :: n in next && !Tiled(prior, Width(n), Prefix(n)))
  {
    widened := false;
    for i := 0 to |next|
      invariant !widened
      invariant forall k :: 0 <= k < i ==> SomeCovers(prior, next[k])
    {
      var covered := false;
      for j := 0 to |prior|
        invariant !covered
        invariant forall k :: 0 <= k < j ==> !Covered(prior[k], next[i])
      {
        if Covered(prior[j], next[i]) {
          covered := true;
          assert prior[j] in prior;
          break;
        }
      }
      assert covered ==> SomeCovers(prior, next[i]);
      if !covered {
        widened := true;
        assert next[i] in next;
        assert forall o :: o in prior ==> !Covered(o, next[i]);
        break;
      }
    }
    if !widened {
      assert forall n :: n in next ==> SomeCovers(prior, n);
      KeepsTrust(prior, next);
    }
    PlainIff(prior, next);
    ReportRightIff(prior, next);
    assert widened <==> exists n :: n in next && !SomeCovers(prior, n);
  }

  // ------------------------------------------------------ one pair of networks

  /** The prefix test is sound for every pair of networks. */
  lemma CoveredIsInside(o: IpNet, n: IpNet)
    requires Valid(o) && Valid(n) && Covered(o, n)
    ensures Inside(n, o)
  {
    assert Mapped(n.ip) <==> Mapped(o.ip);
    var eo, en := ShortOnes(o), ShortOnes(n);
    forall a: Bits | IsAddress(a) && Contains(n, a)
      ensures Contains(o, a)
    {
      var s, t := Short(a), Short(n.ip);
      assert s[..eo] == s[..en][..eo] == t[..en][..eo] == t[..eo];
    }
  }

  /** ::fffe:0:0/95: flipping the first free bit lands in the v4-mapped block. */
  const EDGE_ONES := 95

  predicate Edge(n: IpNet) {
    && |n.ip| == 128 && n.ones == EDGE_ONES
    && (forall i :: 0 <= i < 80 ==> !n.ip[i])
    && (forall i :: 80 <= i < 95 ==> n.ip[i])
  }

  /** Written the usual way: no IPv4 network in IPv6 clothing, and not the edge. */
  predicate Plain(n: IpNet) {
    Valid(n) && !Mapped(n.ip) && !Edge(n)
  }

  predicate AllPlain(nets: seq<IpNet>) {
    forall n :: n in nets ==> Plain(n)
  }

  lemma CoveredIffInside(o: IpNet, n: IpNet)
    requires Plain(o) && Plain(n)
    ensures Covered(o, n) <==> Inside(n, o)
  {
    if Covered(o, n) {
      CoveredIsInside(o, n);
    }
    if Inside(n, o) {
      assert Contains(n, n.ip);
      if n.ones < o.ones {
        FlipLeaves(o, n);
        FlipStaysInside(n);
      }
    }
  }

  lemma FlipLeaves(o: IpNet, n: IpNet)
    requires Plain(o) && Plain(n) && n.ones < o.ones && Contains(o, n.ip)
    ensures !Mapped(n.ip[n.ones := true]) ==> !Contains(o, n.ip[n.ones := true])
  {
    var a := n.ip[n.ones := true];
    assert a[..o.ones][n.ones] && !n.ip[..o.ones][n.ones];
  }

  lemma FlipStaysInside(n: IpNet)
    requires Plain(n) && n.ones < |n.ip|
    ensures var a := n.ip[n.ones := true]; !Mapped(a) && Contains(n, a)
  {
    var a := n.ip[n.ones := true];
    assert a[..n.ones] == n.ip[..n.ones];
    if |a| == 128 {
      if n.ones < 95 {
        assert !a[95];
      } else {
        var i := OffPattern(n);
        assert a[i] == n.ip[i];
      }
    }
  }

  /** A bit before the prefix ends that keeps n out of the v4-mapped block. */
  lemma OffPattern(n: IpNet) returns (i: nat)
    requires Plain(n) && |n.ip| == 128 && n.ones >= 95
    ensures i < 96 && i < n.ones && (n.ip[i] <==> i < 80)
  {
    if n.ones == 95 {
      assert !Edge(n);
      i :| 0 <= i < 95 && (n.ip[i] <==> i < 80);
    } else {
      assert !Mapped(n.ip);
      i :| 0 <= i < 96 && (n.ip[i] <==> i < 80);
    }
  }

  // ---------------------------------------------------------------- the lists

  lemma PlainIff(prior: seq<IpNet>, next: seq<IpNet>)
    requires AllValid(prior) && AllValid(next)
    ensures AllPlain(prior + next) ==>
              ((exists n :: n in next && forall o :: o in prior ==> !Covered(o, n)) <==>
               (exists n :: n in next && forall o :: o in prior ==> !Inside(n, o)))
  {
    if AllPlain(prior + next) {
      forall n, o | n in next && o in prior
        ensures Covered(o, n) <==> Inside(n, o)
      {
        assert n in prior + next && o in prior + next;
        CoveredIffInside(o, n);
      }
      forall n | n in next
        ensures (forall o :: o in prior ==> !Covered(o, n)) <==> (forall o :: o in prior ==> !Inside(n, o))
      {
      }
    }
  }

  lemma KeepsTrust(prior: seq<IpNet>, next: seq<IpNet>)
    requires AllValid(prior) && AllValid(next)
    requires forall n :: n in next ==> SomeCovers(prior, n)
    ensures forall a: Bits :: IsAddress(a) && Trusts(next, a) ==> Trusts(prior, a)
  {
    forall a: Bits | IsAddress(a) && Trusts(next, a)
      ensures Trusts(prior, a)
    {
      var n :| n in next && Contains(n, a);
      var o :| o in prior && Covered(o, n);
      CoveredIsInside(o, n);
    }
  }

  // ------------------------------------------------- when the report is right

  /** Some address is trusted by next and not by prior. */
  ghost predicate NewTrust(prior: seq<IpNet>, next: seq<IpNet>)
    requires AllValid(prior) && AllValid(next)
  {
    exists a: Bits :: IsAddress(a) && Trusts(next, a) && !Trusts(prior, a)
  }

  /** The bits a network fixes, in the width its addresses have once shortened. */
  function Prefix(n: IpNet): Bits
    requires Valid(n)
  {
    Short(n.ip)[..ShortOnes(n)]
  }

  function Width(n: IpNet): nat { |Short(n.ip)| }

  ghost predicate Matches(w: nat, p: Bits, a: Bits) {
    |Short(a)| == w && p <= Short(a)
  }

  /** The v4-mapped block: its addresses are all shortened, so none is left of 128 bits. */
  predicate Hollow(w: nat, p: Bits) {
    w == 128 && |p| >= 96 && (forall i :: 0 <= i < 80 ==> !p[i]) && (forall i :: 80 <= i < 96 ==> p[i])
  }

  predicate OneTile(prior: seq<IpNet>, w: nat, p: Bits)
    requires AllValid(prior)
  {
    exists o :: o in prior && Width(o) == w && Prefix(o) <= p
  }

  /** prior covers the block p in one piece, or both its halves in pieces. */
  predicate Tiled(prior: seq<IpNet>, w: nat, p: Bits)
    requires AllValid(prior) && |p| <= w
    decreases w - |p|
  {
    || Hollow(w, p) || OneTile(prior, w, p)
    || (|p| < w && Tiled(prior, w, p + [false]) && Tiled(prior, w, p + [true]))
  }

  lemma ContainsMatches(n: IpNet, a: Bits)
    requires Valid(n)
    ensures Contains(n, a) <==> Matches(Width(n), Prefix(n), a)
  {
    assert |Prefix(n)| == ShortOnes(n);
  }

  lemma {:induction false} TiledIsTrusted(prior: seq<IpNet>, w: nat, p: Bits, a: Bits)
    requires AllValid(prior) && |p| <= w && Tiled(prior, w, p) && IsAddress(a) && Matches(w, p, a)
    ensures Trusts(prior, a)
    decreases w - |p|
  {
    var s := Short(a);
    assert !Hollow(w, p) by {
      assert w == 128 ==> |a| == 128 && !Mapped(a);
      assert forall i :: 0 <= i < |p| ==> p[i] == s[i];
    }
    if OneTile(prior, w, p) {
      var o :| o in prior && Width(o) == w && Prefix(o) <= p;
      assert Prefix(o) <= s;
      ContainsMatches(o, a);
    } else {
      assert p + [s[|p|]] <= s;
      if s[|p|] {
        TiledIsTrusted(prior, w, p + [true], a);
      } else {
        TiledIsTrusted(prior, w, p + [false], a);
      }
    }
  }

  lemma {:induction false} UntiledEscapes(prior: seq<IpNet>, w: nat, p: Bits) returns (a: Bits)
    requires AllValid(prior) && |p| <= w && (w == 32 || w == 128) && !Tiled(prior, w, p)
    ensures IsAddress(a) && Matches(w, p, a) && !Trusts(prior, a)
    decreases w - |p|
  {
    if |p| == w {
      a := p;
      assert Short(a) == p;
      forall o | o in prior ensures !Contains(o, a) {
        ContainsMatches(o, a);
      }
    } else {
      if Tiled(prior, w, p + [false]) {
        a := UntiledEscapes(prior, w, p + [true]);
      } else {
        a := UntiledEscapes(prior, w, p + [false]);
      }
    }
  }

  /** Tiles decide trust: every address of the block is trusted exactly when the block is tiled. */
  lemma TiledIff(prior: seq<IpNet>, w: nat, p: Bits)
    requires AllValid(prior) && |p| <= w && (w == 32 || w == 128)
    ensures Tiled(prior, w, p) <==> forall a: Bits :: IsAddress(a) && Matches(w, p, a) ==> Trusts(prior, a)
  {
    if Tiled(prior, w, p) {
      forall a: Bits | IsAddress(a) && Matches(w, p, a) ensures Trusts(prior, a) {
        TiledIsTrusted(prior, w, p, a);
      }
    } else {
      var a := UntiledEscapes(prior, w, p);
    }
  }

  /** New trust is exactly a new network that the old ones do not tile. */
  lemma NewTrustIff(prior: seq<IpNet>, next: seq<IpNet>)
    requires AllValid(prior) && AllValid(next)
    ensures NewTrust(prior, next) <==> exists n :: n in next && !Tiled(prior, Width(n), Prefix(n))
  {
    if a: Bits :| IsAddress(a) && Trusts(next, a) && !Trusts(prior, a) {
      var n :| n in next && Contains(n, a);
      ContainsMatches(n, a);
      TiledIff(prior, Width(n), Prefix(n));
    }
    if n :| n in next && !Tiled(prior, Width(n), Prefix(n)) {
      var a := UntiledEscapes(prior, Width(n), Prefix(n));
      ContainsMatches(n, a);
    }
  }

  /** The report is a false alarm exactly when some new network is uncovered and every one is tiled. */
  lemma ReportRightIff(prior: seq<IpNet>, next: seq<IpNet>)
    requires AllValid(prior) && AllValid(next)
    ensures ((exists n :: n in next && !SomeCovers(prior, n)) <==> NewTrust(prior, next)) <==>
              ((forall n :: n in next ==> SomeCovers(prior, n)) || exists n :: n in next && !Tiled(prior, Width(n), Prefix(n)))
  {
    NewTrustIff(prior, next);
    if forall n :: n in next ==> SomeCovers(prior, n) {
      KeepsTrust(prior, next);
    }
  }

  /** The report errs on the loud side: joining two halves counts as widening. */
  lemma HalvesCountAsWidened(n: IpNet)
    requires Valid(n) && |n.ip| == 32 && n.ones < 32
    ensures
      var halves := [IpNet(n.ip, n.ones + 1), IpNet(n.ip[n.ones := true], n.ones + 1)];
      && AllValid(halves)
      && (forall a: Bits :: IsAddress(a) ==> (Trusts(halves, a) <==> Trusts([n], a)))
      && (forall o :: o in halves ==> !Covered(o, n))
  {
    var lo, hi := IpNet(n.ip, n.ones + 1), IpNet(n.ip[n.ones := true], n.ones + 1);
    forall a: Bits | IsAddress(a)
      ensures Trusts([lo, hi], a) <==> Trusts([n], a)
    {
      HalfContains(n, a);
      TrustsPair(lo, hi, a);
      TrustsPair(n, n, a);
      assert forall x :: x in [n] <==> x in [n, n];
    }
  }

  lemma TrustsPair(m: IpNet, n: IpNet, a: Bits)
    requires Valid(m) && Valid(n)
    ensures AllValid([m, n]) && (Trusts([m, n], a) <==> Contains(m, a) || Contains(n, a))
  {
    assert m in [m, n] && n in [m, n];
  }

  lemma HalfContains(n: IpNet, a: Bits)
    requires Valid(n) && |n.ip| == 32 && n.ones < 32
    ensures var lo, hi := IpNet(n.ip, n.ones + 1), IpNet(n.ip[n.ones := true], n.ones + 1);
            Contains(n, a) <==> Contains(lo, a) || Contains(hi, a)
  {
    var s := Short(a);
    if |s| == 32 {
      HalfBits(s, n.ip, n.ones);
    }
  }

  lemma HalfBits(s: Bits, ip: Bits, k: nat)
    requires |s| == |ip| && k < |ip| && !ip[k]
    ensures s[..k] == ip[..k] <==> s[..k + 1] == ip[..k + 1] || s[..k + 1] == ip[k := true][..k + 1]
  {
    var up := ip[k := true];
    assert s[..k + 1] == s[..k] + [s[k]];
    assert ip[..k + 1] == ip[..k] + [false];
    assert up[..k + 1] == ip[..k] + [true];
    assert s[..k] == s[..k + 1][..k] && ip[..k] == ip[..k + 1][..k] && ip[..k] == up[..k + 1][..k];
    assert s[k] ==> s[..k + 1] == s[..k] + [true];
    assert !s[k] ==> s[..k + 1] == s[..k] + [false];
  }

  /** Two spellings of the same trust, told apart by the report. */
  lemma EdgeEscapesPrefixTest(n: IpNet, o: IpNet)
    requires Valid(n) && Edge(n) && o == IpNet(n.ip, 96)
    ensures Inside(n, o) && !Covered(o, n)
  {
    assert !n.ip[95];
    forall a: Bits | IsAddress(a) && Contains(n, a)
      ensures Contains(o, a)
    {
      assert !Mapped(a);
      assert forall i :: 0 <= i < 95 ==> a[i] == a[..95][i] == n.ip[i];
      assert a[95] ==> Mapped(a);
      assert a[..96] == a[..95] + [a[95]];
      assert n.ip[..96] == n.ip[..95] + [n.ip[95]];
    }
  }
}
