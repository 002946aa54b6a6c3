/**
 From the addresses a resolver returned to the ordered list of dial candidates: unmapping,
 filtering, removal of repeats and interleaving of the two address families.
 */
module Candidates {
  import opened Bytes

  /** An address value: none, IPv4, or IPv6 as two 64-bit halves with an optional zone. */
  datatype Addr = NoAddr | V4(bits: uint32) | V6(hi: uint64, lo: uint64, zone: string)

  datatype Family = AnyFamily | Only4 | Only6

  /** What the options ask for; nonPublic is the fixed prefix table, consulted as a predicate. */
  datatype Filter = Filter(family: Family, allowPrivate: bool, nonPublic: Addr -> bool)

  datatype Candidate = Candidate(addr: Addr, port: uint16)

  datatype Resolved = Candidates(list: seq<Candidate>) | NoAddresses | OnlyNonPublic | NotDialable

  /** ::ffff:a.b.c.d is a.b.c.d (section 2.5.5.2 of RFC 4291), and loses its zone. */
  function Unmap(a: Addr): Addr {
    if a.V6? && a.hi == 0 && a.lo / TWO_32 == 0xffff then V4(a.lo % TWO_32) else a
  }

  predicate Matches(f: Family, a: Addr) {
    match f
    case AnyFamily => Unmap(a) != NoAddr
    case Only4 => Unmap(a).V4?
    case Only6 => Unmap(a).V6?
  }

  /** The address is present, of the family asked for, and public unless private is allowed. */
  predicate Usable(a: Addr, f: Filter) {
    var u := Unmap(a);
    u != NoAddr && Matches(f.family, u) && (f.allowPrivate || !f.nonPublic(u))
  }

  // ----- the list, as a function of the resolver's answer

  function Kept(addrs: seq<Addr>, f: Filter): seq<Addr> {
    if addrs == [] then []
    else (if Usable(addrs[0], f) then [Unmap(addrs[0])] else []) + Kept(addrs[1..], f)
  }

  /** First occurrences only. */
  function Dedup(s: seq<Addr>): seq<Addr> {
    if s == [] then []
    else
      var front, last := s[..|s| - 1], s[|s| - 1];
      if last in front then Dedup(front) else Dedup(front) + [last]
  }

  function OfFamily(s: seq<Addr>, six: bool): seq<Addr> {
    if s == [] then [] else (if s[0].V6? == six then [s[0]] else []) + OfFamily(s[1..], six)
  }

  function Interleave<T>(p: seq<T>, q: seq<T>): seq<T> {
    if p == [] then q
    else if q == [] then p
    else [p[0], q[0]] + Interleave(p[1..], q[1..])
  }

  /** The family of the first address leads. */
  function Order(d: seq<Addr>): seq<Addr> {
    if d == [] then []
    else Interleave(OfFamily(d, d[0].V6?), OfFamily(d, !d[0].V6?))
  }

  function CandidateAddrs(addrs: seq<Addr>, f: Filter): seq<Addr> {
    Order(Dedup(Kept(addrs, f)))
  }

  // ----- small facts

  lemma {:induction false} KeptSnoc(s: seq<Addr>, a: Addr, f: Filter)
    ensures Kept(s + [a], f) == Kept(s, f) + if Usable(a, f) then [Unmap(a)] else []
  {
    if s == [] {
      assert s + [a] == [a] && [a][1..] == [];
    } else {
      KeptSnoc(s[1..], a, f);
      assert (s + [a])[1..] == s[1..] + [a];
    }
  }

  lemma {:induction false} OfFamilySnoc(s: seq<Addr>, a: Addr, six: bool)
    ensures OfFamily(s + [a], six) == OfFamily(s, six) + if a.V6? == six then [a] else []
  {
    if s == [] {
      assert s + [a] == [a] && [a][1..] == [];
    } else {
      OfFamilySnoc(s[1..], a, six);
      assert (s + [a])[1..] == s[1..] + [a];
    }
  }

  lemma {:induction false} KeptExact(addrs: seq<Addr>, f: Filter, a: Addr)
    ensures a in Kept(addrs, f) <==> exists k :: 0 <= k < |addrs| && Usable(addrs[k], f) && Unmap(addrs[k]) == a
    ensures a in Kept(addrs, f) ==> Usable(a, f) && Unmap(a) == a
  {
    if addrs != [] {
      KeptExact(addrs[1..], f, a);
      if k :| 0 <= k < |addrs| && Usable(addrs[k], f) && Unmap(addrs[k]) == a {
        assert k > 0 ==> addrs[k] == addrs[1..][k - 1];
      }
      if k :| 0 <= k < |addrs[1..]| && Usable(addrs[1..][k], f) && Unmap(addrs[1..][k]) == a {
        assert addrs[k + 1] == addrs[1..][k];
      }
    }
  }

  lemma {:induction false} DedupExact(s: seq<Addr>, a: Addr)
    ensures a in Dedup(s) <==> a in s
    ensures multiset(Dedup(s))[a] <= 1
  {
    if s != [] {
      var front, last := s[..|s| - 1], s[|s| - 1];
      DedupExact(front, a);
      assert s == front + [last];
    }
  }

  lemma DedupSnoc(s: seq<Addr>, a: Addr)
    ensures Dedup(s + [a]) == if a in s then Dedup(s) else Dedup(s) + [a]
  {
    assert (s + [a])[..|s|] == s;
  }

  lemma {:induction false} DedupHead(s: seq<Addr>)
    requires s != []
    ensures Dedup(s) != [] && Dedup(s)[0] == s[0]
  {
    var front := s[..|s| - 1];
    if front != [] {
      DedupHead(front);
    }
  }

  lemma {:induction false} DedupOfDistinct(s: seq<Addr>)
    requires forall a :: multiset(s)[a] <= 1
    ensures Dedup(s) == s
  {
    if s != [] {
      var front, last := s[..|s| - 1], s[|s| - 1];
      assert s == front + [last];
      assert multiset(s) == multiset(front) + multiset{last};
      assert multiset(s)[last] == multiset(front)[last] + 1;
      forall a
        ensures multiset(front)[a] <= 1
      {
        assert multiset(front)[a] <= multiset(s)[a];
      }
      DedupOfDistinct(front);
    }
  }

  lemma {:induction false} KeptOfClean(s: seq<Addr>, f: Filter)
    requires forall a | a in s :: Usable(a, f) && Unmap(a) == a
    ensures Kept(s, f) == s
  {
    if s != [] {
      KeptOfClean(s[1..], f);
    }
  }

  lemma {:induction false} FamiliesUniform(s: seq<Addr>, six: bool)
    ensures forall a | a in OfFamily(s, six) :: a.V6? == six
  {
    if s != [] {
      FamiliesUniform(s[1..], six);
    }
  }

  lemma {:induction false} FamiliesPartition(s: seq<Addr>, six: bool)
    ensures multiset(OfFamily(s, six)) + multiset(OfFamily(s, !six)) == multiset(s)
  {
    if s != [] {
      FamiliesPartition(s[1..], six);
      ConsMultiset(s);
    }
  }

  lemma ConsMultiset<T>(s: seq<T>)
    requires s != []
    ensures multiset(s) == multiset{s[0]} + multiset(s[1..])
  {
    assert s == [s[0]] + s[1..];
  }

  lemma {:induction false} InterleaveKeepsAll<T>(p: seq<T>, q: seq<T>)
    ensures multiset(Interleave(p, q)) == multiset(p) + multiset(q)
    ensures |Interleave(p, q)| == |p| + |q|
  {
    if p == [] {
      assert Interleave(p, q) == q;
    } else if q == [] {
      assert Interleave(p, q) == p;
    } else {
      InterleaveKeepsAll(p[1..], q[1..]);
      ConsMultiset(p);
      ConsMultiset(q);
      assert multiset(Interleave(p, q)) == multiset{p[0], q[0]} + multiset(Interleave(p[1..], q[1..]));
    }
  }

  /** While both last, the lists alternate. */
  lemma {:induction false} InterleavePair<T>(p: seq<T>, q: seq<T>, j: nat)
    requires j < |p| && j < |q|
    ensures |Interleave(p, q)| == |p| + |q|
    ensures Interleave(p, q)[2 * j] == p[j] && Interleave(p, q)[2 * j + 1] == q[j]
  {
    InterleaveKeepsAll(p[1..], q[1..]);
    if j > 0 {
      InterleavePair(p[1..], q[1..], j - 1);
    }
  }

  /** Then the longer one goes on. */
  lemma {:induction false} SecondGoesOn<T>(p: seq<T>, q: seq<T>, k: nat)
    requires 2 * |p| <= k < |p| + |q|
    ensures |Interleave(p, q)| == |p| + |q| && Interleave(p, q)[k] == q[k - |p|]
  {
    if p != [] {
      SecondGoesOn(p[1..], q[1..], k - 2);
    }
  }

  lemma {:induction false} FirstGoesOn<T>(p: seq<T>, q: seq<T>, k: nat)
    requires 2 * |q| <= k < |p| + |q|
    ensures |Interleave(p, q)| == |p| + |q| && Interleave(p, q)[k] == p[k - |q|]
  {
    if q != [] {
      FirstGoesOn(p[1..], q[1..], k - 2);
    }
  }

  lemma InterleaveAlternates(p: seq<Addr>, q: seq<Addr>, lead: bool, k: nat)
    requires (forall a | a in p :: a.V6? == lead) && (forall a | a in q :: a.V6? != lead)
    requires k < |p| + |q|
    ensures |Interleave(p, q)| == |p| + |q|
    ensures var m := if |p| < |q| then |p| else |q|;
            && (k < 2 * m ==> (Interleave(p, q)[k].V6? == lead <==> k % 2 == 0))
            && (k >= 2 * m ==> (Interleave(p, q)[k].V6? == lead <==> |p| > |q|))
  {
    var j := k / 2;
    if j < |p| && j < |q| {
      InterleavePair(p, q, j);
      assert p[j] in p && q[j] in q;
    } else if |p| > |q| {
      FirstGoesOn(p, q, k);
      assert p[k - |q|] in p;
    } else {
      SecondGoesOn(p, q, k);
      assert q[k - |p|] in q;
    }
  }

  lemma FamilyCons(a: Addr, b: Addr, tail: seq<Addr>, six: bool)
    ensures OfFamily([a, b] + tail, six)
         == (if a.V6? == six then [a] else []) + (if b.V6? == six then [b] else []) + OfFamily(tail, six)
  {
    assert ([a, b] + tail)[1..] == [b] + tail && ([b] + tail)[1..] == tail;
  }

  lemma {:induction false} InterleaveFamily(p: seq<Addr>, q: seq<Addr>, six: bool)
    requires (forall a | a in p :: a.V6? == six) && (forall a | a in q :: a.V6? != six)
    ensures OfFamily(Interleave(p, q), six) == p && OfFamily(Interleave(p, q), !six) == q
  {
    if p == [] {
      FamilyOfUniform(q, !six);
    } else if q == [] {
      FamilyOfUniform(p, six);
    } else {
      InterleaveFamily(p[1..], q[1..], six);
      assert p[0] in p && q[0] in q;
      FamilyCons(p[0], q[0], Interleave(p[1..], q[1..]), six);
      FamilyCons(p[0], q[0], Interleave(p[1..], q[1..]), !six);
      assert [p[0]] + p[1..] == p && [q[0]] + q[1..] == q;
    }
  }

  lemma {:induction false} FamilyOfUniform(s: seq<Addr>, six: bool)
    requires forall a | a in s :: a.V6? == six
    ensures OfFamily(s, six) == s && OfFamily(s, !six) == []
  {
    if s != [] {
      FamilyOfUniform(s[1..], six);
    }
  }

  // ----- ordering

  lemma OrderFamilies(d: seq<Addr>, six: bool)
    ensures OfFamily(Order(d), six) == OfFamily(d, six)
    ensures multiset(Order(d)) == multiset(d)
  {
    if d != [] {
      var lead := d[0].V6?;
      FamiliesPartition(d, lead);
      FamiliesUniform(d, lead);
      FamiliesUniform(d, !lead);
      InterleaveFamily(OfFamily(d, lead), OfFamily(d, !lead), lead);
      InterleaveKeepsAll(OfFamily(d, lead), OfFamily(d, !lead));
    }
  }

  lemma OrderHead(d: seq<Addr>)
    requires d != []
    ensures Order(d) != [] && Order(d)[0] == d[0]
  {
    var lead := d[0].V6?;
    assert OfFamily(d, lead)[0] == d[0];
  }

  lemma OrderIdempotent(d: seq<Addr>)
    ensures Order(Order(d)) == Order(d)
  {
    if d != [] {
      OrderHead(d);
      OrderFamilies(d, true);
      OrderFamilies(d, false);
    }
  }

  // ----- the candidate list characterised

  /** An address is in the list once if some resolver address unmaps to it and qualifies, and
      otherwise not at all. */
  lemma EachUsableOnce(addrs: seq<Addr>, f: Filter, a: Addr)
    ensures multiset(CandidateAddrs(addrs, f))[a]
         == if exists k :: 0 <= k < |addrs| && Usable(addrs[k], f) && Unmap(addrs[k]) == a then 1 else 0
  {
    var d := Dedup(Kept(addrs, f));
    OrderFamilies(d, true);
    DedupExact(Kept(addrs, f), a);
    KeptExact(addrs, f, a);
    assert a in d <==> multiset(d)[a] > 0;
  }

  // ----- in terms of addresses alone

  /** What an address in the resolver's answer stands for: an IPv4 address for itself, also when
      mapped into ::ffff:0:0/96 with whatever zone, any other IPv6 address for itself. */
  predicate StandsFor(a: Addr, u: Addr) {
    match u
    case NoAddr => false
    case V4(b) => a == u || (a.V6? && a.hi == 0 && a.lo == 0xffff_0000_0000 + b)
    case V6(hi, lo, _) => a == u && !(hi == 0 && 0xffff_0000_0000 <= lo < 0x1_0000_0000_0000)
  }

  /** -4 excludes IPv6 addresses, -6 excludes IPv4 addresses. */
  predicate Wanted(u: Addr, f: Filter) {
    (u.V4? && f.family != Only6) || (u.V6? && f.family != Only4)
  }

  lemma UsableMeans(a: Addr, u: Addr, f: Filter)
    ensures Usable(a, f) && Unmap(a) == u
       <==> StandsFor(a, u) && Wanted(u, f) && (f.allowPrivate || !f.nonPublic(u))
  {
    UnmapMeans(a, u);
    if Unmap(a) == u {
      UnmapTwice(a);
    }
  }

  lemma UnmapMeans(a: Addr, u: Addr)
    ensures StandsFor(a, u) <==> u != NoAddr && Unmap(a) == u
  {
    if a.V6? {
      var hi, lo: int := a.lo / TWO_32, a.lo % TWO_32;
      assert a.lo == hi * 0x1_0000_0000 + lo;
      assert hi == 0xffff <==> 0xffff_0000_0000 <= a.lo < 0x1_0000_0000_0000;
    }
  }

  lemma UnmapTwice(a: Addr)
    ensures Unmap(Unmap(a)) == Unmap(a)
  {
  }

  /** The list holds an address, and then once, if and only if some address of the answer stands
      for it, its family is wanted, and it is public or private ones are allowed. */
  lemma ListedExactly(addrs: seq<Addr>, f: Filter, u: Addr)
    ensures multiset(CandidateAddrs(addrs, f))[u]
         == if (exists a :: a in addrs && StandsFor(a, u)) && Wanted(u, f) && (f.allowPrivate || !f.nonPublic(u))
            then 1 else 0
  {
    EachUsableOnce(addrs, f, u);
    forall a
      ensures Usable(a, f) && Unmap(a) == u
         <==> StandsFor(a, u) && Wanted(u, f) && (f.allowPrivate || !f.nonPublic(u))
    {
      UsableMeans(a, u, f);
    }
    if a :| a in addrs && StandsFor(a, u) {
      var k :| 0 <= k < |addrs| && addrs[k] == a;
    }
  }

  /** With -4 only IPv4 addresses are listed, with -6 only IPv6 addresses, and never none. */
  lemma FamilyListed(addrs: seq<Addr>, f: Filter)
    ensures forall u | u in CandidateAddrs(addrs, f) ::
              u != NoAddr && (f.family == Only4 ==> u.V4?) && (f.family == Only6 ==> u.V6?)
  {
    forall u | u in CandidateAddrs(addrs, f)
      ensures Wanted(u, f)
    {
      ListedExactly(addrs, f, u);
      assert multiset(CandidateAddrs(addrs, f))[u] > 0;
    }
  }

  // ----- order of first occurrences

  /** a first occurs in s, and before any b. */
  predicate Precedes(s: seq<Addr>, a: Addr, b: Addr) {
    s != [] && s[0] != b && (s[0] == a || Precedes(s[1..], a, b))
  }

  /** Position k is the first whose address qualifies and unmaps to a. */
  predicate FirstAt(addrs: seq<Addr>, f: Filter, a: Addr, k: nat) {
    && k < |addrs| && Usable(addrs[k], f) && Unmap(addrs[k]) == a
    && forall j | 0 <= j < k :: !(Usable(addrs[j], f) && Unmap(addrs[j]) == a)
  }

  lemma {:induction false} PrecedesSnoc(s: seq<Addr>, x: Addr, a: Addr, b: Addr)
    ensures Precedes(s + [x], a, b) <==> Precedes(s, a, b) || (x == a && a != b && a !in s && b !in s)
  {
    if s == [] {
      assert (s + [x])[1..] == [];
    } else {
      PrecedesSnoc(s[1..], x, a, b);
      assert (s + [x])[1..] == s[1..] + [x];
    }
  }

  lemma {:induction false} DedupOrder(s: seq<Addr>, a: Addr, b: Addr)
    ensures Precedes(Dedup(s), a, b) <==> Precedes(s, a, b)
  {
    if s != [] {
      var front, last := s[..|s| - 1], s[|s| - 1];
      assert s == front + [last];
      DedupOrder(front, a, b);
      DedupExact(front, a);
      DedupExact(front, b);
      PrecedesSnoc(front, last, a, b);
      PrecedesSnoc(Dedup(front), last, a, b);
    }
  }

  lemma {:induction false} FamilyOrder(s: seq<Addr>, six: bool, a: Addr, b: Addr)
    requires a.V6? == b.V6? == six
    ensures Precedes(OfFamily(s, six), a, b) <==> Precedes(s, a, b)
  {
    if s != [] {
      var rest := OfFamily(s[1..], six);
      FamilyOrder(s[1..], six, a, b);
      assert OfFamily(s, six) == if s[0].V6? == six then [s[0]] + rest else rest;
      assert ([s[0]] + rest)[1..] == rest;
    }
  }

  lemma {:induction false} PositionOrder(s: seq<Addr>, x: nat, y: nat)
    requires x < |s| && y < |s| && x != y && forall a :: multiset(s)[a] <= 1
    ensures Precedes(s, s[x], s[y]) <==> x < y
  {
    ConsMultiset(s);
    if x == 0 || y == 0 {
      assert s[x] != s[y] by { DistinctEntries(s, x, y); }
    } else {
      DistinctEntries(s, 0, x);
      DistinctEntries(s, 0, y);
      forall a
        ensures multiset(s[1..])[a] <= 1
      {
        assert multiset(s[1..])[a] <= multiset(s)[a];
      }
      PositionOrder(s[1..], x - 1, y - 1);
    }
  }

  lemma DistinctEntries(s: seq<Addr>, x: nat, y: nat)
    requires x < |s| && y < |s| && x != y && forall a :: multiset(s)[a] <= 1
    ensures s[x] != s[y]
  {
    var i, j := if x < y then x else y, if x < y then y else x;
    assert s == s[..i] + [s[i]] + s[i + 1..];
    assert multiset(s)[s[i]] == multiset(s[..i])[s[i]] + 1 + multiset(s[i + 1..])[s[i]];
    assert s[j] in s[i + 1..];
  }

  lemma {:induction false} KeptOrder(addrs: seq<Addr>, f: Filter, a: Addr, b: Addr, k: nat, l: nat)
    requires a != b && FirstAt(addrs, f, a, k) && FirstAt(addrs, f, b, l)
    ensures Precedes(Kept(addrs, f), a, b) <==> k < l
  {
    var head, tail := addrs[0], addrs[1..];
    if k == 0 {
      assert Kept(addrs, f)[0] == a;
    } else if l == 0 {
      assert Kept(addrs, f)[0] == b;
    } else {
      assert FirstAt(tail, f, a, k - 1) && FirstAt(tail, f, b, l - 1);
      KeptOrder(tail, f, a, b, k - 1, l - 1);
      if Usable(head, f) {
        assert Kept(addrs, f)[1..] == Kept(tail, f);
      } else {
        assert Kept(addrs, f) == Kept(tail, f);
      }
    }
  }

  /** Within a family the resolver's order is kept: of two listed addresses the one that first
      turned up earlier in the resolver's answer comes first. */
  lemma FamilyOrderKept(addrs: seq<Addr>, f: Filter, x: nat, y: nat, k: nat, l: nat)
    requires var r := CandidateAddrs(addrs, f);
             && x < |r| && y < |r| && x != y && r[x].V6? == r[y].V6?
             && FirstAt(addrs, f, r[x], k) && FirstAt(addrs, f, r[y], l)
    ensures x < y <==> k < l
  {
    var r, d := CandidateAddrs(addrs, f), Dedup(Kept(addrs, f));
    forall a
      ensures multiset(r)[a] <= 1
    {
      EachUsableOnce(addrs, f, a);
    }
    DistinctEntries(r, x, y);
    PositionOrder(r, x, y);
    FamilyOrder(r, r[x].V6?, r[x], r[y]);
    OrderFamilies(d, r[x].V6?);
    FamilyOrder(d, r[x].V6?, r[x], r[y]);
    DedupOrder(Kept(addrs, f), r[x], r[y]);
    KeptOrder(addrs, f, r[x], r[y], k, l);
  }

  /** Every listed address has such a first position. */
  lemma ListedHasFirst(addrs: seq<Addr>, f: Filter, a: Addr)
    requires a in CandidateAddrs(addrs, f)
    ensures exists k: nat :: FirstAt(addrs, f, a, k)
  {
    EachUsableOnce(addrs, f, a);
    assert multiset(CandidateAddrs(addrs, f))[a] > 0;
    var k :| 0 <= k < |addrs| && Usable(addrs[k], f) && Unmap(addrs[k]) == a;
    FirstExists(addrs, f, a, k);
  }

  lemma {:induction false} FirstExists(addrs: seq<Addr>, f: Filter, a: Addr, k: nat)
    requires k < |addrs| && Usable(addrs[k], f) && Unmap(addrs[k]) == a
    ensures exists j: nat :: FirstAt(addrs, f, a, j)
    decreases k
  {
    if j: nat :| j < k && Usable(addrs[j], f) && Unmap(addrs[j]) == a {
      FirstExists(addrs, f, a, j);
    } else {
      assert FirstAt(addrs, f, a, k);
    }
  }

  /** The first usable resolver address leads. */
  lemma FirstUsableLeads(addrs: seq<Addr>, f: Filter, k: nat)
    requires k < |addrs| && Usable(addrs[k], f)
    requires forall j | 0 <= j < k :: !Usable(addrs[j], f)
    ensures CandidateAddrs(addrs, f) != [] && CandidateAddrs(addrs, f)[0] == Unmap(addrs[k])
  {
    KeptHead(addrs, f, k);
    DedupHead(Kept(addrs, f));
    OrderHead(Dedup(Kept(addrs, f)));
  }

  lemma {:induction false} KeptHead(addrs: seq<Addr>, f: Filter, k: nat)
    requires k < |addrs| && Usable(addrs[k], f)
    requires forall j | 0 <= j < k :: !Usable(addrs[j], f)
    ensures Kept(addrs, f) != [] && Kept(addrs, f)[0] == Unmap(addrs[k])
  {
    if k > 0 {
      KeptHead(addrs[1..], f, k - 1);
    }
  }

  /** The families alternate, the first address's family on even positions, until one of them
      runs out; from there on all addresses are of the other. */
  lemma FamiliesAlternate(addrs: seq<Addr>, f: Filter, k: nat)
    requires k < |CandidateAddrs(addrs, f)|
    ensures var r := CandidateAddrs(addrs, f);
            var lead := r[0].V6?;
            var p, q := |OfFamily(r, lead)|, |OfFamily(r, !lead)|;
            var m := if p < q then p else q;
            && p + q == |r|
            && (k < 2 * m ==> (r[k].V6? == lead <==> k % 2 == 0))
            && (k >= 2 * m ==> (r[k].V6? == lead <==> p > q))
  {
    var d := Dedup(Kept(addrs, f));
    var lead := d[0].V6?;
    var p, q := OfFamily(d, lead), OfFamily(d, !lead);
    OrderHead(d);
    OrderFamilies(d, true);
    OrderFamilies(d, false);
    FamiliesUniform(d, lead);
    FamiliesUniform(d, !lead);
    InterleaveKeepsAll(p, q);
    InterleaveAlternates(p, q, lead, k);
  }

  /** Rebuilding from the list's own addresses gives the same list. */
  lemma RebuildIsStable(addrs: seq<Addr>, f: Filter)
    ensures CandidateAddrs(CandidateAddrs(addrs, f), f) == CandidateAddrs(addrs, f)
  {
    var r := CandidateAddrs(addrs, f);
    forall a
      ensures multiset(r)[a] <= 1
      ensures a in r ==> Usable(a, f) && Unmap(a) == a
    {
      EachUsableOnce(addrs, f, a);
      KeptExact(addrs, f, a);
      assert a in r <==> multiset(r)[a] > 0;
    }
    KeptOfClean(r, f);
    DedupOfDistinct(r);
    OrderIdempotent(Dedup(Kept(addrs, f)));
  }

  // ----- the loops

  function WithPorts(addrs: seq<Addr>, portFor: Addr -> uint16): seq<Candidate> {
    seq(|addrs|, k requires 0 <= k < |addrs| => Candidate(addrs[k], portFor(addrs[k])))
  }

  function Take<T>(s: seq<T>, n: nat): seq<T> {
    if n < |s| then s[..n] else s
  }

  lemma TakeGrows<T>(s: seq<T>, i: nat)
    ensures Take(s, i + 1) == Take(s, i) + if i < |s| then [s[i]] else []
  {
  }

  lemma TakeTail<T>(s: seq<T>, i: nat)
    requires s != [] && i > 0
    ensures Take(s, i) != [] && Take(s, i)[0] == s[0] && Take(s, i)[1..] == Take(s[1..], i - 1)
  {
  }

  lemma InterleaveTake<T>(p: seq<T>, q: seq<T>, i: nat)
    requires p != [] && q != [] && i > 0
    ensures Interleave(Take(p, i), Take(q, i)) == [p[0], q[0]] + Interleave(Take(p[1..], i - 1), Take(q[1..], i - 1))
  {
    TakeTail(p, i);
    TakeTail(q, i);
  }

  /** What one pass of the loop appends. */
  function Column<T>(p: seq<T>, q: seq<T>, i: nat): seq<T> {
    (if i < |p| then [p[i]] else []) + (if i < |q| then [q[i]] else [])
  }

  lemma ColumnTail<T>(p: seq<T>, q: seq<T>, i: nat)
    requires p != [] && q != [] && i > 0
    ensures Column(p, q, i) == Column(p[1..], q[1..], i - 1)
  {
  }

  lemma InterleaveGrowsOne<T>(p: seq<T>, q: seq<T>, i: nat)
    requires p == [] || q == []
    ensures Interleave(Take(p, i + 1), Take(q, i + 1)) == Interleave(Take(p, i), Take(q, i)) + Column(p, q, i)
  {
    TakeGrows(p, i);
    TakeGrows(q, i);
  }

  lemma {:induction false} InterleaveGrows<T>(p: seq<T>, q: seq<T>, i: nat)
    ensures Interleave(Take(p, i + 1), Take(q, i + 1)) == Interleave(Take(p, i), Take(q, i)) + Column(p, q, i)
    decreases i
  {
    if p == [] || q == [] {
      InterleaveGrowsOne(p, q, i);
    } else {
      InterleaveTake(p, q, i + 1);
      if i == 0 {
        assert Take(p[1..], 0) == [] && Take(q[1..], 0) == [] && Take(p, 0) == [] && Take(q, 0) == [];
      } else {
        InterleaveTake(p, q, i);
        InterleaveGrows(p[1..], q[1..], i - 1);
        ColumnTail(p, q, i);
        Prepend([p[0], q[0]], Interleave(Take(p[1..], i), Take(q[1..], i)),
                Interleave(Take(p[1..], i - 1), Take(q[1..], i - 1)), Column(p, q, i));
      }
    }
  }

  lemma Prepend<T>(head: seq<T>, a: seq<T>, b: seq<T>, c: seq<T>)
    requires a == b + c
    ensures head + a == head + b + c
  {
  }

  method InterleaveDialCandidates(primary: seq<Candidate>, secondary: seq<Candidate>) returns (ordered: seq<Candidate>)
    ensures ordered == Interleave(primary, secondary)
  {
    ordered := [];
    var limit := if |secondary| > |primary| then |secondary| else |primary|;
    for i := 0 to limit
      invariant ordered == Interleave(Take(primary, i), Take(secondary, i))
    {
      InterleaveGrows(primary, secondary, i);
      assert Column(primary, secondary, i)
          == (if i < |primary| then [primary[i]] else []) + (if i < |secondary| then [secondary[i]] else []);
      if i < |primary| {
        ordered := ordered + [primary[i]];
      }
      if i < |secondary| {
        ordered := ordered + [secondary[i]];
      }
    }
  }

  lemma {:induction false} WithPortsInterleave(p: seq<Addr>, q: seq<Addr>, portFor: Addr -> uint16)
    ensures WithPorts(Interleave(p, q), portFor) == Interleave(WithPorts(p, portFor), WithPorts(q, portFor))
  {
    if p != [] && q != [] {
      WithPortsInterleave(p[1..], q[1..], portFor);
      assert WithPorts(p, portFor)[1..] == WithPorts(p[1..], portFor);
      assert WithPorts(q, portFor)[1..] == WithPorts(q[1..], portFor);
    }
  }

  lemma WithPortsSnoc(s: seq<Addr>, a: Addr, portFor: Addr -> uint16)
    ensures WithPorts(s + [a], portFor) == WithPorts(s, portFor) + [Candidate(a, portFor(a))]
  {
  }

  const EVERYTHING: Filter := Filter(AnyFamily, true, _ => false)

  /** One resolver address: skipped, repeated, or new. */
  lemma BuildStep(addrs: seq<Addr>, i: nat)
    requires i < |addrs|
    ensures var kept, kept', addr := Kept(addrs[..i], EVERYTHING), Kept(addrs[..i + 1], EVERYTHING), Unmap(addrs[i]);
            && kept' == (if addr == NoAddr then kept else kept + [addr])
            && Dedup(kept') == (if addr == NoAddr || addr in kept then Dedup(kept) else Dedup(kept) + [addr])
  {
    assert addrs[..i + 1] == addrs[..i] + [addrs[i]];
    KeptSnoc(addrs[..i], addrs[i], EVERYTHING);
    DedupSnoc(Kept(addrs[..i], EVERYTHING), Unmap(addrs[i]));
  }

  lemma NewAddress(d: seq<Addr>, addr: Addr, portFor: Addr -> uint16)
    ensures var candidate := Candidate(addr, portFor(addr));
            forall six: bool :: WithPorts(OfFamily(d + [addr], six), portFor)
                            == WithPorts(OfFamily(d, six), portFor) + if addr.V6? == six then [candidate] else []
  {
    forall six: bool
      ensures WithPorts(OfFamily(d + [addr], six), portFor)
           == WithPorts(OfFamily(d, six), portFor) + if addr.V6? == six then [Candidate(addr, portFor(addr))] else []
    {
      OfFamilySnoc(d, addr, six);
      WithPortsSnoc(OfFamily(d, six), addr, portFor);
    }
  }

  /** The final switch over empty families and the primary one is one interleaving. */
  lemma BuildResult(d: seq<Addr>, portFor: Addr -> uint16)
    ensures d == [] ==> OfFamily(d, false) == [] && OfFamily(d, true) == []
    ensures d != [] ==> OfFamily(d, d[0].V6?) != []
    ensures d != [] ==>
              var lead, other := OfFamily(d, d[0].V6?), OfFamily(d, !d[0].V6?);
              WithPorts(Order(d), portFor) == Interleave(WithPorts(lead, portFor), WithPorts(other, portFor))
  {
    if d != [] {
      WithPortsInterleave(OfFamily(d, d[0].V6?), OfFamily(d, !d[0].V6?), portFor);
    }
  }

  method BuildDialCandidates(addrs: seq<Addr>, portFor: Addr -> uint16) returns (list: seq<Candidate>)
    ensures list == WithPorts(CandidateAddrs(addrs, EVERYTHING), portFor)
  {
    var seen: set<Addr> := {};
    var ipv4: seq<Candidate>, ipv6: seq<Candidate> := [], [];
    var primaryFamilyIsV6, primaryFamilySet := false, false;
    ghost var d: seq<Addr> := [];
    for i := 0 to |addrs|
      invariant d == Dedup(Kept(addrs[..i], EVERYTHING))
      invariant forall a :: a in seen <==> a in Kept(addrs[..i], EVERYTHING)
      invariant ipv4 == WithPorts(OfFamily(d, false), portFor) && ipv6 == WithPorts(OfFamily(d, true), portFor)
      invariant primaryFamilySet <==> d != []
      invariant d != [] ==> primaryFamilyIsV6 == d[0].V6?
    {
      BuildStep(addrs, i);
      var addr := Unmap(addrs[i]);
      if addr == NoAddr {
        continue;
      }
      if addr in seen {
        continue;
      }
      seen := seen + {addr};
      NewAddress(d, addr, portFor);
      d := d + [addr];
      var candidate := Candidate(addr, portFor(addr));
      if !primaryFamilySet {
        primaryFamilyIsV6 := addr.V6?;
        primaryFamilySet := true;
      }
      if addr.V6? {
        ipv6 := ipv6 + [candidate];
        continue;
      }
      ipv4 := ipv4 + [candidate];
    }
    assert addrs[..|addrs|] == addrs;
    BuildResult(d, portFor);
    if |ipv4| == 0 {
      list := ipv6;
    } else if |ipv6| == 0 {
      list := ipv4;
    } else if primaryFamilyIsV6 {
      list := InterleaveDialCandidates(ipv6, ipv4);
    } else {
      list := InterleaveDialCandidates(ipv4, ipv6);
    }
  }

  lemma KeptTwice(addrs: seq<Addr>, f: Filter)
    ensures Kept(Kept(addrs, f), EVERYTHING) == Kept(addrs, f)
  {
    forall a | a in Kept(addrs, f)
      ensures Usable(a, EVERYTHING) && Unmap(a) == a
    {
      KeptExact(addrs, f, a);
    }
    KeptOfClean(Kept(addrs, f), EVERYTHING);
  }

  ghost predicate SomeUsable(addrs: seq<Addr>, f: Filter) {
    exists k :: 0 <= k < |addrs| && Usable(addrs[k], f)
  }

  predicate RefusedAsNonPublic(a: Addr, f: Filter) {
    Unmap(a) != NoAddr && Matches(f.family, Unmap(a)) && !f.allowPrivate && f.nonPublic(Unmap(a))
  }

  /** Refused for not being public, and for that alone. */
  lemma RefusedMeans(a: Addr, f: Filter)
    ensures RefusedAsNonPublic(a, f)
       <==> exists u :: StandsFor(a, u) && Wanted(u, f) && !f.allowPrivate && f.nonPublic(u)
  {
    UnmapMeans(a, Unmap(a));
    UnmapTwice(a);
    if u :| StandsFor(a, u) && Wanted(u, f) && !f.allowPrivate && f.nonPublic(u) {
      UnmapMeans(a, u);
    }
  }

  /** The list and its ports, or an error exactly when no address qualifies, with the reason. */
  method DialCandidatesForResolvedIPs(addrs: seq<Addr>, f: Filter, portFor: Addr -> uint16) returns (r: Resolved)
    ensures r.Candidates? <==> SomeUsable(addrs, f)
    ensures r.Candidates? ==> r.list == WithPorts(CandidateAddrs(addrs, f), portFor) && r.list != []
    ensures r.Candidates? ==> forall c | c in r.list :: c.port == portFor(c.addr)
    ensures r.NoAddresses? <==> addrs == []
    ensures r.OnlyNonPublic? <==> && !SomeUsable(addrs, f)
                                  && exists k :: 0 <= k < |addrs| && RefusedAsNonPublic(addrs[k], f)
  {
    if |addrs| == 0 {
      return NoAddresses;
    }
    var filtered: seq<Addr> := [];
    var matchedFamily, filteredNonPublic := false, false;
    for i := 0 to |addrs|
      invariant filtered == Kept(addrs[..i], f)
      invariant filteredNonPublic <==> exists k :: 0 <= k < i && RefusedAsNonPublic(addrs[k], f)
      invariant filteredNonPublic ==> matchedFamily
    {
      var addr := Unmap(addrs[i]);
      assert addrs[..i + 1] == addrs[..i] + [addrs[i]];
      KeptSnoc(addrs[..i], addrs[i], f);
      if addr == NoAddr {
        continue;
      }
      if !Matches(f.family, addr) {
        continue;
      }
      matchedFamily := true;
      if !f.allowPrivate && f.nonPublic(addr) {
        filteredNonPublic := true;
        continue;
      }
      filtered := filtered + [addr];
    }
    assert addrs[..|addrs|] == addrs;
    var candidates := BuildDialCandidates(filtered, portFor);
    KeptTwice(addrs, f);
    ListEmptyExactly(addrs, f);
    if |candidates| != 0 {
      return Candidates(candidates);
    }
    if matchedFamily && filteredNonPublic {
      return OnlyNonPublic;
    }
    return NotDialable;
  }

  lemma ListEmptyExactly(addrs: seq<Addr>, f: Filter)
    ensures CandidateAddrs(addrs, f) == [] <==> !SomeUsable(addrs, f)
  {
    var r := CandidateAddrs(addrs, f);
    if r != [] {
      EachUsableOnce(addrs, f, r[0]);
      assert r[0] in r;
    }
    if SomeUsable(addrs, f) {
      var k :| 0 <= k < |addrs| && Usable(addrs[k], f);
      EachUsableOnce(addrs, f, Unmap(addrs[k]));
    }
  }
}
