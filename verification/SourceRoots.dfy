/**
 Source identities: extracting them from a message's history, choosing the reference
 among them, and normalising a list of them.
 */
module SourceRoots {
  import opened Integers
  import opened NodeHistory
  import opened HistoryRuns
  import opened SampleManagement

  datatype Identity = Identity(nodeName: string, sequence: uint32, timestamp: uint64)

  // ---------- The order on names ----------

  /** Byte-wise lexicographic order, as `std::string` compares. */
  predicate NameBefore(a: string, b: string) {
    if b == "" then false
    else if a == "" then true
    else a[0] < b[0] || (a[0] == b[0] && NameBefore(a[1..], b[1..]))
  }

  lemma {:induction false} NameOrderIsTotal(a: string, b: string)
    ensures a != b ==> NameBefore(a, b) || NameBefore(b, a)
    ensures !(NameBefore(a, b) && NameBefore(b, a))
    ensures !NameBefore(a, a)
  {
    if a != "" {
      NameOrderIsTotal(a[1..], if b == "" then "" else b[1..]);
      assert b != "" && a[0] == b[0] && a[1..] == b[1..] ==> a == b;
    }
  }

  lemma {:induction false} NameOrderIsTransitive(a: string, b: string, c: string)
    requires NameBefore(a, b) && NameBefore(b, c)
    ensures NameBefore(a, c)
  {
    if a != "" && a[0] == b[0] == c[0] {
      NameOrderIsTransitive(a[1..], b[1..], c[1..]);
    }
  }

  /** The names agree up to some place, where the first one ends or has the smaller character. */
  ghost predicate IsSmallerName(a: string, b: string) {
    exists k: nat :: IsSmallerAt(a, b, k)
  }

  ghost predicate IsSmallerAt(a: string, b: string, k: nat) {
    k <= |a| && k < |b| && a[..k] == b[..k] && (k == |a| || a[k] < b[k])
  }

  lemma SmallerInTail(a: string, b: string, k: nat)
    requires a != "" && b != "" && a[0] == b[0]
    ensures IsSmallerAt(a, b, k + 1) <==> IsSmallerAt(a[1..], b[1..], k)
  {
    if k + 1 <= |a| && k + 1 < |b| {
      assert a[..k + 1] == [a[0]] + a[1..][..k] && b[..k + 1] == [b[0]] + b[1..][..k];
      assert a[..k + 1][1..] == a[1..][..k] && b[..k + 1][1..] == b[1..][..k];
    }
  }

  /** Which of two names comes first, by the place where they part. */
  lemma {:induction false} NameBeforeIsSmaller(a: string, b: string)
    ensures NameBefore(a, b) <==> IsSmallerName(a, b)
  {
    if a == "" || b == "" || a[0] != b[0] {
      assert IsSmallerAt(a, b, 0) <==> NameBefore(a, b);
      forall k: nat | IsSmallerAt(a, b, k) ensures k == 0 {
      }
    } else {
      NameBeforeIsSmaller(a[1..], b[1..]);
      if IsSmallerName(a, b) {
        var k: nat :| IsSmallerAt(a, b, k);
        SmallerInTail(a, b, k - 1);
      }
      if IsSmallerName(a[1..], b[1..]) {
        var k: nat :| IsSmallerAt(a[1..], b[1..], k);
        SmallerInTail(a, b, k);
      }
    }
  }

  // ---------- Listing a std::map in key order ----------

  type Roots = map<string, Identity>

  ghost predicate IsRoots(m: Roots) {
    forall n :: n in m ==> m[n].nodeName == n
  }

  ghost predicate Ascending(s: seq<Identity>) {
    forall i, j :: 0 <= i < j < |s| ==> NameBefore(s[i].nodeName, s[j].nodeName)
  }

  /** The sequence holds exactly the values of the map, by strictly ascending name. */
  ghost predicate IsListing(m: Roots, s: seq<Identity>) {
    Ascending(s) &&
    (forall i :: 0 <= i < |s| ==> s[i].nodeName in m && m[s[i].nodeName] == s[i]) &&
    (forall n :: n in m ==> m[n] in s)
  }

  lemma {:induction false} ListingIsUnique(m: Roots, s: seq<Identity>, t: seq<Identity>)
    requires IsRoots(m) && IsListing(m, s) && IsListing(m, t)
    ensures s == t
    decreases |s|
  {
    if s == [] {
      if t != [] {
        FirstIsSame(m, t, s);
      }
    } else {
      FirstIsSame(m, s, t);
      var n := s[0].nodeName;
      ListingWithoutFirst(m, s);
      ListingWithoutFirst(m, t);
      ListingIsUnique(m - {n}, s[1..], t[1..]);
      assert s == [s[0]] + s[1..] && t == [t[0]] + t[1..];
    }
  }

  lemma FirstIsSame(m: Roots, s: seq<Identity>, t: seq<Identity>)
    requires IsRoots(m) && IsListing(m, s) && IsListing(m, t) && s != []
    ensures t != [] && s[0] == t[0]
  {
    assert s[0] in t;
    assert t[0] in s;
    var i :| 0 <= i < |t| && t[i] == s[0];
    var j :| 0 <= j < |s| && s[j] == t[0];
    if i > 0 && j > 0 {
      NameOrderIsTotal(s[0].nodeName, t[0].nodeName);
      assert false;
    }
  }

  lemma TailHolds(m: Roots, s: seq<Identity>, k: string)
    requires IsRoots(m) && IsListing(m, s) && s != [] && k in m && k != s[0].nodeName
    ensures m[k] in s[1..]
  {
    var i :| 0 <= i < |s| && s[i] == m[k];
    assert s[1..][i - 1] == m[k];
  }

  lemma ListingWithoutFirst(m: Roots, s: seq<Identity>)
    requires IsRoots(m) && IsListing(m, s) && s != []
    ensures IsListing(m - {s[0].nodeName}, s[1..])
  {
    var n, tail := s[0].nodeName, s[1..];
    forall i | 0 <= i < |tail| ensures tail[i] == s[i + 1] && tail[i].nodeName != n {
      NameOrderIsTotal(n, n);
    }
    forall k | k in m && k != n ensures m[k] in tail {
      TailHolds(m, s, k);
    }
  }

  ghost predicate IsLeast(names: set<string>, least: string) {
    least in names && forall n :: n in names && n != least ==> NameBefore(least, n)
  }

  lemma LeastNameExists(names: set<string>) returns (least: string)
    requires names != {}
    ensures IsLeast(names, least)
  {
    var x :| x in names;
    var rest := names - {x};
    assert names == rest + {x};
    if rest == {} {
      least := x;
    } else {
      var y := LeastNameExists(rest);
      NameOrderIsTotal(x, y);
      least := if NameBefore(y, x) then y else x;
      forall n | n in names && n != least ensures NameBefore(least, n) {
        if NameBefore(x, y) && n in rest && n != y {
          NameOrderIsTransitive(x, y, n);
        }
      }
    }
  }

  /** The loops over a finished `std::map`, which visit its keys in order. */
  method ListInKeyOrder(m: Roots) returns (listing: seq<Identity>)
    requires IsRoots(m)
    ensures IsListing(m, listing)
    ensures forall i, j :: 0 <= i < j < |listing| ==> IsSmallerName(listing[i].nodeName, listing[j].nodeName)
  {
    listing := [];
    var todo := m.Keys;
    while todo != {}
      invariant todo <= m.Keys
      invariant Ascending(listing)
      invariant forall i :: 0 <= i < |listing| ==>
                  var n := listing[i].nodeName;
                  n in m && n !in todo && m[n] == listing[i] && forall k :: k in todo ==> NameBefore(n, k)
      invariant forall n :: n in m && n !in todo ==> m[n] in listing
    {
      ghost var least := LeastNameExists(todo);
      var n :| n in todo && forall k :: k in todo && k != n ==> NameBefore(n, k);
      var before := listing;
      listing := listing + [m[n]];
      todo := todo - {n};
      assert forall k :: k in m && k !in todo && k != n ==> m[k] in before;
    }
    forall i, j | 0 <= i < j < |listing| ensures IsSmallerName(listing[i].nodeName, listing[j].nodeName) {
      NameBeforeIsSmaller(listing[i].nodeName, listing[j].nodeName);
    }
  }

  // ---------- Extracting roots ----------

  predicate IsNewerIdentity(a: Identity, b: Identity) {
    a.sequence > b.sequence || (a.sequence == b.sequence && a.timestamp > b.timestamp)
  }

  function NewestIdentity(a: Identity, b: Identity): Identity {
    if IsNewerIdentity(b, a) then b else a
  }

  /** The identities that a history holds of the given source nodes. */
  function RootsOf(h: History, sources: set<string>): Roots {
    map n | n in h && n in sources :: Identity(n, h[n].sequence, h[n].timestamp)
  }

  /** Some slot has the identity, and no slot with its name has a later sequence, nor a later timestamp in that sequence. */
  ghost predicate IsNewestInSlots(slots: seq<Stats>, r: Identity) {
    (exists i :: 0 <= i < |slots| && NameOf(slots[i]) == r.nodeName &&
       slots[i].snapshot.sequence == r.sequence && slots[i].snapshot.timestamp == r.timestamp) &&
    (forall i :: 0 <= i < |slots| && NameOf(slots[i]) == r.nodeName ==>
       slots[i].snapshot.sequence <= r.sequence &&
       (slots[i].snapshot.sequence == r.sequence ==> slots[i].snapshot.timestamp <= r.timestamp))
  }

  lemma ViewIsNewestInSlots(slots: seq<Stats>, n: string)
    requires n in View(slots)
    ensures IsNewestInSlots(slots, Identity(n, View(slots)[n].sequence, View(slots)[n].timestamp))
  {
    ViewHoldsNewest(slots, n);
  }

  lemma NewestInSlotsIsUnique(slots: seq<Stats>, r: Identity, s: Identity)
    requires IsNewestInSlots(slots, r) && IsNewestInSlots(slots, s) && r.nodeName == s.nodeName
    ensures r == s
  {
  }

  /** Which identities are extracted, in terms of the slots. */
  lemma RootsOfSlots(slots: seq<Stats>, sources: set<string>, r: Identity)
    ensures r in RootsOf(View(slots), sources).Values <==> r.nodeName in sources && IsNewestInSlots(slots, r)
  {
    var h, n := View(slots), r.nodeName;
    assert IsNewestInSlots(slots, r) ==> n in Names(slots);
    assert r in RootsOf(h, sources).Values ==> n in h && n in sources && RootsOf(h, sources)[n] == r;
    if n in h {
      ViewIsNewestInSlots(slots, n);
      if n in sources && IsNewestInSlots(slots, r) {
        NewestInSlotsIsUnique(slots, r, Identity(n, h[n].sequence, h[n].timestamp));
        assert RootsOf(h, sources)[n] == r;
      }
    }
  }

  method ExtractSourceRoots(sample: Sample, sourceNodes: seq<string>) returns (result: seq<Identity>)
    requires sample.Valid()
    ensures IsListing(RootsOf(View(sample.Slots()), set n | n in sourceNodes), result)
    ensures forall r :: r in result <==> r.nodeName in sourceNodes && IsNewestInSlots(sample.Slots(), r)
  {
    ghost var slots := sample.Slots();
    ghost var sources := set n | n in sourceNodes;
    var roots: Roots := map[];
    for i := 0 to sample.size
      invariant roots == RootsOf(View(slots[..i]), sources)
    {
      ExtractOne(slots, sources, i, roots);
      var name := NameOf(sample.stats[i]);
      if name in sourceNodes {
        var s := sample.stats[i].snapshot;
        var candidate := Identity(name, s.sequence, s.timestamp);
        if name !in roots || IsNewerIdentity(candidate, roots[name]) {
          roots := roots[name := candidate];
        }
      }
    }
    assert slots[..sample.size] == slots;
    result := ListInKeyOrder(roots);
    ListingHoldsNewest(slots, sources, result);
  }

  lemma ListingHoldsNewest(slots: seq<Stats>, sources: set<string>, result: seq<Identity>)
    requires IsListing(RootsOf(View(slots), sources), result)
    ensures forall r :: r in result <==> r.nodeName in sources && IsNewestInSlots(slots, r)
  {
    forall r: Identity ensures r in result <==> r.nodeName in sources && IsNewestInSlots(slots, r) {
      RootsOfSlots(slots, sources, r);
      ListingHoldsValues(RootsOf(View(slots), sources), result, r);
    }
  }

  lemma ExtractOne(slots: seq<Stats>, sources: set<string>, i: nat, roots: Roots)
    requires i < |slots| && roots == RootsOf(View(slots[..i]), sources)
    ensures var n, s := NameOf(slots[i]), slots[i].snapshot;
            var candidate := Identity(n, s.sequence, s.timestamp);
            RootsOf(View(slots[..i + 1]), sources) ==
            if n in sources && (n !in roots || IsNewerIdentity(candidate, roots[n])) then roots[n := candidate] else roots
  {
    ViewStep(slots, i);
    RootsOfPut(View(slots[..i]), sources, NameOf(slots[i]), slots[i].snapshot);
  }

  lemma ListingHoldsValues(m: Roots, s: seq<Identity>, r: Identity)
    requires IsRoots(m) && IsListing(m, s)
    ensures r in s <==> r in m.Values
  {
  }

  lemma ViewStep(slots: seq<Stats>, i: nat)
    requires i < |slots|
    ensures View(slots[..i + 1]) == Put(View(slots[..i]), NameOf(slots[i]), slots[i].snapshot)
  {
    assert slots[..i + 1][..i] == slots[..i];
  }

  lemma RootsOfPut(h: History, sources: set<string>, n: string, s: Snapshot)
    ensures RootsOf(Put(h, n, s), sources) ==
            if n !in sources then RootsOf(h, sources)
            else
              var candidate := Identity(n, s.sequence, s.timestamp);
              RootsOf(h, sources)[n := if n in h then NewestIdentity(RootsOf(h, sources)[n], candidate) else candidate]
  {
  }

  function JoinRoots(a: Roots, b: Roots): Roots {
    map n | n in a.Keys + b.Keys ::
      if n in a && n in b then NewestIdentity(a[n], b[n]) else if n in a then a[n] else b[n]
  }

  /** Extracting roots turns the join of histories into the per-name newest identity. */
  lemma RootsOfJoin(a: History, b: History, sources: set<string>)
    ensures RootsOf(Join(a, b), sources) == JoinRoots(RootsOf(a, sources), RootsOf(b, sources))
  {
    var l, r := RootsOf(Join(a, b), sources), JoinRoots(RootsOf(a, sources), RootsOf(b, sources));
    assert l.Keys == r.Keys;
    forall n | n in l ensures l[n] == r[n] {
      assert n in a && n in b ==> Join(a, b)[n] == Newest(a[n], b[n]);
    }
  }

  /** The roots extracted from a merged message are the newest of the roots of its inputs. */
  lemma RootsOfMerge(sample: seq<Stats>, source: seq<Stats>, sources: set<string>,
                     listing: seq<Identity>, expected: seq<Identity>)
    requires |sample| <= STATS_CAPACITY && Fits(Names(sample) + Names(source))
    requires IsListing(RootsOf(View(Merged(sample, source).slots), sources), listing)
    requires IsListing(JoinRoots(RootsOf(View(sample), sources), RootsOf(View(source), sources)), expected)
    ensures listing == expected
  {
    MergeIsJoin(sample, source);
    RootsOfJoin(View(sample), View(source), sources);
    ListingIsUnique(RootsOf(View(Merged(sample, source).slots), sources), listing, expected);
  }

  // ---------- Choosing the reference ----------

  predicate ReferenceBefore(a: Identity, b: Identity) {
    if a.timestamp != b.timestamp then a.timestamp < b.timestamp
    else if a.nodeName != b.nodeName then NameBefore(a.nodeName, b.nodeName)
    else a.sequence < b.sequence
  }

  lemma ReferenceOrderIsTotal(a: Identity, b: Identity)
    ensures a != b ==> ReferenceBefore(a, b) || ReferenceBefore(b, a)
    ensures !(ReferenceBefore(a, b) && ReferenceBefore(b, a))
  {
    NameOrderIsTotal(a.nodeName, b.nodeName);
  }

  lemma ReferenceOrderIsTransitive(a: Identity, b: Identity, c: Identity)
    requires ReferenceBefore(a, b) && ReferenceBefore(b, c)
    ensures ReferenceBefore(a, c)
  {
    NameOrderIsTotal(a.nodeName, b.nodeName);
    NameOrderIsTotal(b.nodeName, c.nodeName);
    if NameBefore(a.nodeName, b.nodeName) && NameBefore(b.nodeName, c.nodeName) {
      NameOrderIsTransitive(a.nodeName, b.nodeName, c.nodeName);
      NameOrderIsTotal(a.nodeName, c.nodeName);
    }
  }

  predicate Precedes(useMinimum: bool, a: Identity, b: Identity) {
    if useMinimum then ReferenceBefore(a, b) else ReferenceBefore(b, a)
  }

  ghost predicate IsReference(roots: seq<Identity>, useMinimum: bool, r: Identity) {
    if roots == [] then r == Identity("", 0, 0)
    else r in roots && forall x :: x in roots && x != r ==> Precedes(useMinimum, r, x)
  }

  /** `min_element` and `max_element` under the reference order. */
  method SelectSourceReference(roots: seq<Identity>, useMinimum: bool) returns (r: Identity)
    ensures IsReference(roots, useMinimum, r)
    ensures if roots == [] then r == Identity("", 0, 0) else r in roots
    ensures if useMinimum then IsFirst(roots, r) else IsLast(roots, r)
  {
    if roots == [] {
      return Identity("", 0, 0);
    }
    r := roots[0];
    for i := 1 to |roots|
      invariant r in roots
      invariant forall j :: 0 <= j < i && roots[j] != r ==> Precedes(useMinimum, r, roots[j])
    {
      var c := roots[i];
      ReferenceOrderIsTotal(c, r);
      if Precedes(useMinimum, c, r) {
        forall j | 0 <= j < i && roots[j] != c ensures Precedes(useMinimum, c, roots[j]) {
          if roots[j] != r {
            if useMinimum {
              ReferenceOrderIsTransitive(c, r, roots[j]);
            } else {
              ReferenceOrderIsTransitive(roots[j], r, c);
            }
          }
        }
        r := c;
      }
    }
    ReferenceIsExtreme(roots, useMinimum, r);
  }

  /** No root is earlier; among those of its time none has a smaller name, and of that name none a smaller sequence. */
  ghost predicate IsFirst(roots: seq<Identity>, r: Identity) {
    forall x :: x in roots ==>
      r.timestamp <= x.timestamp &&
      (x.timestamp == r.timestamp ==> !IsSmallerName(x.nodeName, r.nodeName)) &&
      (x.timestamp == r.timestamp && x.nodeName == r.nodeName ==> r.sequence <= x.sequence)
  }

  /** No root is later; among those of its time none has a greater name, and of that name none a greater sequence. */
  ghost predicate IsLast(roots: seq<Identity>, r: Identity) {
    forall x :: x in roots ==>
      x.timestamp <= r.timestamp &&
      (x.timestamp == r.timestamp ==> !IsSmallerName(r.nodeName, x.nodeName)) &&
      (x.timestamp == r.timestamp && x.nodeName == r.nodeName ==> x.sequence <= r.sequence)
  }

  lemma ReferenceIsExtreme(roots: seq<Identity>, useMinimum: bool, r: Identity)
    requires IsReference(roots, useMinimum, r)
    ensures if useMinimum then IsFirst(roots, r) else IsLast(roots, r)
  {
    forall x | x in roots
      ensures NameBefore(x.nodeName, r.nodeName) <==> IsSmallerName(x.nodeName, r.nodeName)
      ensures NameBefore(r.nodeName, x.nodeName) <==> IsSmallerName(r.nodeName, x.nodeName)
      ensures !(NameBefore(x.nodeName, r.nodeName) && NameBefore(r.nodeName, x.nodeName))
      ensures x.nodeName == r.nodeName ==> !NameBefore(x.nodeName, r.nodeName)
    {
      NameBeforeIsSmaller(x.nodeName, r.nodeName);
      NameBeforeIsSmaller(r.nodeName, x.nodeName);
      NameOrderIsTotal(x.nodeName, r.nodeName);
    }
  }

  lemma ReferenceIsUnique(roots: seq<Identity>, useMinimum: bool, r: Identity, s: Identity)
    requires IsReference(roots, useMinimum, r) && IsReference(roots, useMinimum, s)
    ensures r == s
  {
    ReferenceOrderIsTotal(r, s);
  }

  /** Neither the extracted roots nor the reference depend on how messages were merged. */
  lemma ReferenceIgnoresMergeOrder(t: MergeTree, u: MergeTree, sources: set<string>, useMinimum: bool,
                                   rootsT: seq<Identity>, rootsU: seq<Identity>, r: Identity, s: Identity)
    requires WithinCapacity(t) && WithinCapacity(u)
    requires Messages(t) == Messages(u) && Fits(AllNames(Messages(t)))
    requires IsListing(RootsOf(View(Evaluate(t)), sources), rootsT)
    requires IsListing(RootsOf(View(Evaluate(u)), sources), rootsU)
    requires IsReference(rootsT, useMinimum, r) && IsReference(rootsU, useMinimum, s)
    ensures rootsT == rootsU && r == s
  {
    MergeOrderIsIrrelevant(t, u);
    ListingIsUnique(RootsOf(View(Evaluate(t)), sources), rootsT, rootsU);
    ReferenceIsUnique(rootsT, useMinimum, r, s);
  }

  // ---------- Normalising a list of roots ----------

  function NewestByName(roots: seq<Identity>): Roots {
    if roots == [] then map[] else
    var m, root := NewestByName(roots[..|roots| - 1]), roots[|roots| - 1];
    if root.nodeName == "" then m
    else m[root.nodeName := if root.nodeName in m then NewestIdentity(m[root.nodeName], root) else root]
  }

  function NormalRoots(roots: seq<Identity>, reference: Identity): Roots {
    if reference.nodeName == "" then NewestByName(roots)
    else NewestByName(roots)[reference.nodeName := reference]
  }

  method NormalizedSourceRoots(roots: seq<Identity>, reference: Identity) returns (result: seq<Identity>)
    ensures IsListing(NormalRoots(roots, reference), result)
    ensures forall r :: r in result <==>
              if r.nodeName == reference.nodeName then r == reference && r.nodeName != ""
              else IsNewestRoot(SetOf(roots), r)
  {
    var unique: Roots := map[];
    for i := 0 to |roots|
      invariant unique == NewestByName(roots[..i])
    {
      var root := roots[i];
      assert roots[..i + 1][..i] == roots[..i];
      if root.nodeName == "" {
        continue;
      }
      if root.nodeName !in unique || IsNewerIdentity(root, unique[root.nodeName]) {
        unique := unique[root.nodeName := root];
      }
    }
    assert roots[..|roots|] == roots;
    if reference.nodeName != "" {
      unique := unique[reference.nodeName := reference];
    }
    NormalRootsByName(roots, reference);
    result := ListInKeyOrder(unique);
    forall r: Identity ensures r in result <==> r in unique.Values {
      ListingHoldsValues(unique, result, r);
    }
  }

  /** The identity is the newest that the set holds under its (non-empty) name. */
  ghost predicate IsNewestRoot(roots: set<Identity>, r: Identity) {
    r in roots && r.nodeName != "" &&
    forall x :: x in roots && x.nodeName == r.nodeName ==>
      x.sequence <= r.sequence && (x.sequence == r.sequence ==> x.timestamp <= r.timestamp)
  }

  function SetOf(roots: seq<Identity>): set<Identity> {
    set r | r in roots
  }

  lemma {:induction false} NewestByNameAt(roots: seq<Identity>, n: string)
    ensures n in NewestByName(roots) <==> n != "" && exists r :: r in roots && r.nodeName == n
    ensures n in NewestByName(roots) ==>
              NewestByName(roots)[n].nodeName == n && IsNewestRoot(SetOf(roots), NewestByName(roots)[n])
  {
    if roots != [] {
      var front, last := roots[..|roots| - 1], roots[|roots| - 1];
      NewestByNameAt(front, n);
      assert roots == front + [last];
      assert forall r :: r in roots <==> r in front || r == last;
      if last.nodeName != n {
        assert forall r :: r in roots && r.nodeName == n ==> r in front;
      }
    }
  }

  lemma NewestByNameIsNewest(roots: seq<Identity>)
    ensures forall n :: n in NewestByName(roots) ==>
              NewestByName(roots)[n].nodeName == n && IsNewestRoot(SetOf(roots), NewestByName(roots)[n])
    ensures forall r :: r in roots && r.nodeName != "" ==> r.nodeName in NewestByName(roots)
  {
    forall n: string
      ensures n in NewestByName(roots) ==>
                NewestByName(roots)[n].nodeName == n && IsNewestRoot(SetOf(roots), NewestByName(roots)[n])
    {
      NewestByNameAt(roots, n);
    }
    forall r | r in roots && r.nodeName != "" ensures r.nodeName in NewestByName(roots) {
      NewestByNameAt(roots, r.nodeName);
    }
  }

  /** Which identities a normalised list holds: the reference, and the newest of every other name. */
  lemma NormalRootsByName(roots: seq<Identity>, reference: Identity)
    ensures IsRoots(NormalRoots(roots, reference)) && "" !in NormalRoots(roots, reference)
    ensures forall r :: r in NormalRoots(roots, reference).Values <==>
              if r.nodeName == reference.nodeName then r == reference && r.nodeName != ""
              else IsNewestRoot(SetOf(roots), r)
  {
    NewestByNameIsNewest(roots);
    var m := NormalRoots(roots, reference);
    forall r: Identity
      ensures r in m.Values <==>
              if r.nodeName == reference.nodeName then r == reference && r.nodeName != ""
              else IsNewestRoot(SetOf(roots), r)
    {
      if r.nodeName == reference.nodeName {
        assert r.nodeName != "" ==> m[r.nodeName] == reference;
      } else if IsNewestRoot(SetOf(roots), r) {
        assert m[r.nodeName] == r;
      }
    }
  }

  /** Normalising ignores the order and the repetition of its input. */
  lemma NormalisingIgnoresOrder(roots: seq<Identity>, others: seq<Identity>, reference: Identity,
                                s: seq<Identity>, t: seq<Identity>)
    requires SetOf(roots) == SetOf(others)
    requires IsListing(NormalRoots(roots, reference), s) && IsListing(NormalRoots(others, reference), t)
    ensures s == t
  {
    NormalRootsByName(roots, reference);
    NormalRootsByName(others, reference);
    SameValues(NormalRoots(roots, reference), NormalRoots(others, reference));
    ListingIsUnique(NormalRoots(roots, reference), s, t);
  }

  lemma SameValues(a: Roots, b: Roots)
    requires IsRoots(a) && IsRoots(b)
    requires forall r :: r in a.Values <==> r in b.Values
    ensures a == b
  {
    forall n | n in a ensures n in b && a[n] == b[n] {
      assert a[n] in b.Values;
    }
    forall n | n in b ensures n in a {
      assert b[n] in a.Values;
    }
  }

  lemma NormalisingTwice(roots: seq<Identity>, reference: Identity, s: seq<Identity>, r: Identity)
    requires IsListing(NormalRoots(roots, reference), s)
    ensures r in NormalRoots(roots, reference).Values <==> r in NormalRoots(s, reference).Values
  {
    var a := NormalRoots(roots, reference);
    NormalRootsByName(roots, reference);
    NormalRootsByName(s, reference);
    ListingHoldsValues(a, s, r);
    forall x | x in s && r in s && x.nodeName == r.nodeName ensures x == r {
      ListingHoldsValues(a, s, x);
    }
  }

  /** Normalising a normalised list with the same reference changes nothing. */
  lemma NormalisingIsIdempotent(roots: seq<Identity>, reference: Identity, s: seq<Identity>, t: seq<Identity>)
    requires IsListing(NormalRoots(roots, reference), s) && IsListing(NormalRoots(s, reference), t)
    ensures s == t
  {
    var a, b := NormalRoots(roots, reference), NormalRoots(s, reference);
    NormalRootsByName(roots, reference);
    NormalRootsByName(s, reference);
    forall r: Identity ensures r in a.Values <==> r in b.Values {
      NormalisingTwice(roots, reference, s, r);
    }
    SameValues(a, b);
    ListingIsUnique(a, s, t);
  }
}
