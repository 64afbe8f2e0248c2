/**
 * Peer metadata: canonical snapshot forms that do not depend on how the sort breaks ties, and the
 * merge that lets a refreshed snapshot change at most one dial target.
 */
module Candidates {
  import opened Common

  const MAX_CANDIDATES: nat := 16

  datatype Candidate = Candidate(typ: string, proto: string, addr: string, priority: int)

  datatype SelfInfo = SelfInfo(public: string, local: string, candidates: seq<Candidate>, features: seq<string>)

  // ----- Orders -----

  /** Byte-wise string order. */
  predicate TextLess(a: string, b: string) {
    if |b| == 0 then false
    else if |a| == 0 then true
    else if a[0] == b[0] then TextLess(a[1..], b[1..])
    else a[0] < b[0]
  }

  /** The comparator both digests sort candidates with. */
  predicate CandidateLess(left: Candidate, right: Candidate) {
    if left.typ != right.typ then TextLess(left.typ, right.typ)
    else if left.proto != right.proto then TextLess(left.proto, right.proto)
    else if left.addr != right.addr then TextLess(left.addr, right.addr)
    else left.priority < right.priority
  }

  ghost predicate StrictTotal<T(!new)>(less: (T, T) -> bool) {
    && (forall a :: !less(a, a))
    && (forall a, b :: less(a, b) || less(b, a) || a == b)
    && (forall a, b, c :: less(a, b) && less(b, c) ==> less(a, c))
  }

  lemma {:induction false} TextTrichotomy(a: string, b: string)
    ensures !TextLess(a, a)
    ensures TextLess(a, b) || TextLess(b, a) || a == b
    decreases |a| + |b|
  {
    if |a| > 0 && |b| > 0 && a[0] == b[0] {
      TextTrichotomy(a[1..], b[1..]);
      assert a == [a[0]] + a[1..] && b == [b[0]] + b[1..];
    } else if |a| > 0 {
      TextTrichotomy(a[1..], []);
    }
  }

  lemma {:induction false} TextTransitive(a: string, b: string, c: string)
    requires TextLess(a, b) && TextLess(b, c)
    ensures TextLess(a, c)
  {
    if |a| > 0 && a[0] == b[0] && b[0] == c[0] {
      TextTransitive(a[1..], b[1..], c[1..]);
    }
  }

  lemma TextOrder()
    ensures StrictTotal(TextLess)
  {
    forall a, b {
      TextTrichotomy(a, b);
    }
    forall a, b, c | TextLess(a, b) && TextLess(b, c)
      ensures TextLess(a, c)
    {
      TextTransitive(a, b, c);
    }
  }

  /** The comparator is a total order on all four fields, so equal-ranking candidates are equal. */
  lemma CandidateOrder()
    ensures StrictTotal(CandidateLess)
  {
    TextOrder();
    assert StrictTotal(TextLess);
    forall a, b, c | CandidateLess(a, b) && CandidateLess(b, c)
      ensures CandidateLess(a, c)
    {
      CandidateTransitive(a, b, c);
    }
    forall a: Candidate, b: Candidate
      ensures !CandidateLess(a, a) && (CandidateLess(a, b) || CandidateLess(b, a) || a == b)
    {
      TextTrichotomy(a.typ, b.typ);
      TextTrichotomy(a.proto, b.proto);
      TextTrichotomy(a.addr, b.addr);
    }
  }

  lemma CandidateTransitive(a: Candidate, b: Candidate, c: Candidate)
    requires CandidateLess(a, b) && CandidateLess(b, c)
    ensures CandidateLess(a, c)
  {
    TextTrichotomy(a.typ, c.typ);
    TextTrichotomy(a.proto, c.proto);
    TextTrichotomy(a.addr, c.addr);
    if TextLess(a.typ, b.typ) && TextLess(b.typ, c.typ) { TextTransitive(a.typ, b.typ, c.typ); }
    if TextLess(a.proto, b.proto) && TextLess(b.proto, c.proto) { TextTransitive(a.proto, b.proto, c.proto); }
    if TextLess(a.addr, b.addr) && TextLess(b.addr, c.addr) { TextTransitive(a.addr, b.addr, c.addr); }
    AsymmetricText(a.typ, b.typ);
    AsymmetricText(a.proto, b.proto);
    AsymmetricText(a.addr, b.addr);
  }

  lemma AsymmetricText(a: string, b: string)
    ensures !(TextLess(a, b) && TextLess(b, a))
  {
    if TextLess(a, b) && TextLess(b, a) {
      TextTransitive(a, b, a);
      TextTrichotomy(a, a);
    }
  }

  // ----- Sorting -----

  ghost predicate Sorted<T>(less: (T, T) -> bool, s: seq<T>) {
    forall i, j :: 0 <= i < j < |s| ==> !less(s[j], s[i])
  }

  /** `out` is a possible result of sorting `s`; the library sort promises no more than this. */
  ghost predicate Sorts<T>(less: (T, T) -> bool, s: seq<T>, out: seq<T>) {
    Sorted(less, out) && multiset(out) == multiset(s)
  }

  lemma MultisetTail<T>(s: seq<T>)
    requires |s| > 0
    ensures multiset(s[1..]) == multiset(s) - multiset{s[0]}
  {
    assert s == [s[0]] + s[1..];
  }

  lemma SameLeast<T(!new)>(less: (T, T) -> bool, a: seq<T>, b: seq<T>)
    requires StrictTotal(less) && Sorted(less, a) && Sorted(less, b)
    requires multiset(a) == multiset(b) && |a| > 0 && |b| > 0
    ensures a[0] == b[0]
  {
    assert a[0] in multiset(b) && b[0] in multiset(a);
    var j :| 0 <= j < |b| && b[j] == a[0];
    var i :| 0 <= i < |a| && a[i] == b[0];
    assert !less(b[0], a[0]) && !less(a[0], b[0]);
  }

  /** Taking the first element off both lists keeps everything the induction needs. */
  lemma Tails<T(!new)>(less: (T, T) -> bool, a: seq<T>, b: seq<T>)
    requires StrictTotal(less) && Sorted(less, a) && Sorted(less, b)
    requires multiset(a) == multiset(b) && |a| > 0
    ensures |b| == |a| && a[0] == b[0]
    ensures Sorted(less, a[1..]) && Sorted(less, b[1..]) && multiset(a[1..]) == multiset(b[1..])
  {
    assert |a| == |multiset(a)| == |multiset(b)| == |b|;
    SameLeast(less, a, b);
    MultisetTail(a);
    MultisetTail(b);
  }

  lemma {:induction false} SortedUnique<T(!new)>(less: (T, T) -> bool, a: seq<T>, b: seq<T>)
    requires StrictTotal(less) && Sorted(less, a) && Sorted(less, b)
    requires multiset(a) == multiset(b)
    ensures a == b
    decreases |a|
  {
    if |a| > 0 {
      Tails(less, a, b);
      SortedUnique(less, a[1..], b[1..]);
      assert a == [a[0]] + a[1..] == [b[0]] + b[1..] == b;
    } else {
      assert |multiset(b)| == 0;
    }
  }

  function Insert<T(!new)>(less: (T, T) -> bool, x: T, s: seq<T>): (out: seq<T>)
    ensures multiset(out) == multiset([x] + s)
  {
    if |s| == 0 || !less(s[0], x) then [x] + s
    else
      assert s == [s[0]] + s[1..];
      [s[0]] + Insert(less, x, s[1..])
  }

  /** The canonical order of a list: the one sorted arrangement it has. */
  function Canonical<T(!new)>(less: (T, T) -> bool, s: seq<T>): (out: seq<T>)
    ensures multiset(out) == multiset(s)
  {
    if |s| == 0 then []
    else
      assert s == [s[0]] + s[1..];
      Insert(less, s[0], Canonical(less, s[1..]))
  }

  lemma NotBothLess<T(!new)>(less: (T, T) -> bool, a: T, b: T)
    requires StrictTotal(less) && less(a, b)
    ensures !less(b, a)
  {
  }

  lemma NotLessThrough<T(!new)>(less: (T, T) -> bool, a: T, b: T, c: T)
    requires StrictTotal(less) && !less(a, b) && !less(b, c)
    ensures !less(a, c)
  {
  }

  ghost predicate NoneLess<T>(less: (T, T) -> bool, s: seq<T>, low: T) {
    forall i :: 0 <= i < |s| ==> !less(s[i], low)
  }

  lemma InsertBound<T(!new)>(less: (T, T) -> bool, x: T, s: seq<T>, low: T)
    requires NoneLess(less, s, low) && !less(x, low)
    ensures NoneLess(less, Insert(less, x, s), low)
  {
    var out := Insert(less, x, s);
    forall i | 0 <= i < |out|
      ensures !less(out[i], low)
    {
      assert out[i] in multiset(out);
      assert out[i] in [x] + s;
    }
  }

  lemma SortedCons<T>(less: (T, T) -> bool, x: T, s: seq<T>)
    requires Sorted(less, s) && NoneLess(less, s, x)
    ensures Sorted(less, [x] + s)
  {
  }

  lemma {:induction false} InsertSorted<T(!new)>(less: (T, T) -> bool, x: T, s: seq<T>)
    requires StrictTotal(less) && Sorted(less, s)
    ensures Sorted(less, Insert(less, x, s))
  {
    if |s| > 0 && less(s[0], x) {
      InsertSorted(less, x, s[1..]);
      NotBothLess(less, s[0], x);
      InsertBound(less, x, s[1..], s[0]);
      SortedCons(less, s[0], Insert(less, x, s[1..]));
    } else {
      forall k | 0 <= k < |s|
        ensures !less(s[k], x)
      {
        if k > 0 {
          NotLessThrough(less, s[k], s[0], x);
        }
      }
      SortedCons(less, x, s);
    }
  }

  /** Every sort of `s` is the canonical one: instability cannot show. */
  lemma {:induction false} CanonicalIsEverySort<T(!new)>(less: (T, T) -> bool, s: seq<T>, out: seq<T>)
    requires StrictTotal(less)
    ensures Sorts(less, s, Canonical(less, s))
    ensures Sorts(less, s, out) <==> out == Canonical(less, s)
  {
    CanonicalSorted(less, s);
    if Sorts(less, s, out) {
      SortedUnique(less, out, Canonical(less, s));
    }
  }

  lemma {:induction false} CanonicalSorted<T(!new)>(less: (T, T) -> bool, s: seq<T>)
    requires StrictTotal(less)
    ensures Sorted(less, Canonical(less, s))
  {
    if |s| > 0 {
      CanonicalSorted(less, s[1..]);
      InsertSorted(less, s[0], Canonical(less, s[1..]));
    }
  }

  // ----- Snapshot digests (the hash and the encoding are ideal, so a digest is its canonical form) -----

  const MAX_TEXT: nat := 256
  const MAX_PRIORITY: int := 10000
  const MAX_FEATURES: nat := 16
  const MAX_FEATURE: nat := 64

  datatype Snapshot = Snapshot(public: string, local: string, candidates: seq<Candidate>, features: seq<string>)

  /** Bounded printable text without spaces. */
  predicate SafeText(s: string) {
    0 < |s| <= MAX_TEXT && forall i :: 0 <= i < |s| ==> '!' <= s[i] <= '~'
  }

  predicate SafeCandidate(c: Candidate) {
    SafeText(c.typ) && SafeText(c.proto) && SafeText(c.addr) && -MAX_PRIORITY <= c.priority <= MAX_PRIORITY
  }

  predicate SafeFeature(f: string) {
    |f| <= MAX_FEATURE && SafeText(f)
  }

  /** What a snapshot must satisfy to be authenticated at all. */
  predicate Publishable(info: SelfInfo) {
    && |info.candidates| <= MAX_CANDIDATES
    && (info.public == "" || SafeText(info.public)) && (info.local == "" || SafeText(info.local))
    && (forall c :: c in info.candidates ==> SafeCandidate(c))
    && |info.features| <= MAX_FEATURES
    && (forall f :: f in info.features ==> SafeFeature(f))
  }

  /** At least one and at most `max` visible ASCII characters. */
  predicate Visible(s: string, max: nat) {
    1 <= |s| <= max && forall i :: 0 <= i < |s| ==> 33 <= s[i] as int <= 126
  }

  lemma TextIsSafe(s: string)
    ensures SafeText(s) <==> Visible(s, 256)
    ensures SafeFeature(s) <==> Visible(s, 64)
  {
  }

  lemma CandidateIsSafe(c: Candidate)
    ensures SafeCandidate(c) <==>
              && Visible(c.typ, 256) && Visible(c.proto, 256) && Visible(c.addr, 256)
              && -10000 <= c.priority <= 10000
  {
    TextIsSafe(c.typ);
    TextIsSafe(c.proto);
    TextIsSafe(c.addr);
  }

  /** A snapshot can be published exactly when every count, text and priority is in bounds. */
  lemma PublishableIsExact(info: SelfInfo)
    ensures Publishable(info) <==>
              && |info.candidates| <= 16 && |info.features| <= 16
              && (info.public == "" || Visible(info.public, 256)) && (info.local == "" || Visible(info.local, 256))
              && (forall c :: c in info.candidates ==>
                    && Visible(c.typ, 256) && Visible(c.proto, 256) && Visible(c.addr, 256)
                    && -10000 <= c.priority <= 10000)
              && (forall f :: f in info.features ==> Visible(f, 64))
  {
    TextIsSafe(info.public);
    TextIsSafe(info.local);
    forall c: Candidate
      ensures SafeCandidate(c) <==>
                && Visible(c.typ, 256) && Visible(c.proto, 256) && Visible(c.addr, 256)
                && -10000 <= c.priority <= 10000
    {
      CandidateIsSafe(c);
    }
    forall f: string
      ensures SafeFeature(f) <==> Visible(f, 64)
    {
      TextIsSafe(f);
    }
  }

  /** None when the snapshot is refused. */
  function SelfSnapshotDigest(info: SelfInfo): Option<Snapshot> {
    if !Publishable(info) then None
    else
      Some(Snapshot(info.public, info.local,
                    Canonical(CandidateLess, info.candidates), Canonical(TextLess, info.features)))
  }

  /** None when the snapshot is over the candidate limit. */
  function CandidateSetDigest(candidates: seq<Candidate>): Option<seq<Candidate>> {
    if |candidates| > MAX_CANDIDATES then None else Some(Canonical(CandidateLess, candidates))
  }

  /** However the two sorts arrange ties, candidate digests agree exactly for equal multisets. */
  lemma CandidateDigestIsCanonical(a: seq<Candidate>, b: seq<Candidate>,
                                   sortedA: seq<Candidate>, sortedB: seq<Candidate>)
    requires Sorts(CandidateLess, a, sortedA) && Sorts(CandidateLess, b, sortedB)
    ensures sortedA == sortedB <==> multiset(a) == multiset(b)
    ensures sortedA == Canonical(CandidateLess, a)
  {
    CandidateOrder();
    CanonicalIsEverySort(CandidateLess, a, sortedA);
    CanonicalIsEverySort(CandidateLess, b, sortedB);
    if multiset(a) == multiset(b) {
      SortedUnique(CandidateLess, sortedA, sortedB);
    }
  }

  /** The same endpoints and the same lists but for their order. */
  predicate SameSnapshot(a: SelfInfo, b: SelfInfo) {
    && a.public == b.public && a.local == b.local
    && multiset(a.candidates) == multiset(b.candidates)
    && multiset(a.features) == multiset(b.features)
  }

  lemma SameMembers<T>(a: seq<T>, b: seq<T>)
    requires multiset(a) == multiset(b)
    ensures |a| == |b| && forall x :: x in a <==> x in b
  {
    assert |a| == |multiset(a)| == |multiset(b)| == |b|;
    assert forall x :: x in a <==> x in multiset(a);
    assert forall x :: x in b <==> x in multiset(b);
  }

  lemma CanonicalAgree<T(!new)>(less: (T, T) -> bool, a: seq<T>, b: seq<T>)
    requires StrictTotal(less)
    ensures Canonical(less, a) == Canonical(less, b) <==> multiset(a) == multiset(b)
  {
    CanonicalSorted(less, a);
    CanonicalSorted(less, b);
    if multiset(a) == multiset(b) {
      SortedUnique(less, Canonical(less, a), Canonical(less, b));
    }
  }

  lemma CandidatesAgree(a: seq<Candidate>, b: seq<Candidate>)
    ensures Canonical(CandidateLess, a) == Canonical(CandidateLess, b) <==> multiset(a) == multiset(b)
  {
    CandidateOrder();
    CanonicalAgree(CandidateLess, a, b);
  }

  lemma TextsAgree(a: seq<string>, b: seq<string>)
    ensures Canonical(TextLess, a) == Canonical(TextLess, b) <==> multiset(a) == multiset(b)
  {
    TextOrder();
    CanonicalAgree(TextLess, a, b);
  }

  /** A candidate list has a digest exactly within the limit, and two have the same exactly if equal as multisets. */
  lemma CandidateSetDigestIsExact(a: seq<Candidate>, b: seq<Candidate>)
    ensures CandidateSetDigest(a).Some? <==> |a| <= 16
    ensures CandidateSetDigest(a).Some? && CandidateSetDigest(a) == CandidateSetDigest(b) <==>
            |a| <= 16 && multiset(a) == multiset(b)
  {
    CandidatesAgree(a, b);
    if multiset(a) == multiset(b) {
      SameMembers(a, b);
    }
  }

  /** Reordering the lists does not change whether a snapshot is refused. */
  lemma PublishableAlike(a: SelfInfo, b: SelfInfo)
    requires SameSnapshot(a, b)
    ensures Publishable(a) <==> Publishable(b)
  {
    SameMembers(a.candidates, b.candidates);
    SameMembers(a.features, b.features);
  }

  /**
   * A snapshot has a digest exactly when it can be published, and two have the same one exactly when
   * one of them can be published and they agree on endpoints and, as multisets, on both lists.
   */
  lemma SnapshotDigestIsCanonical(a: SelfInfo, b: SelfInfo)
    ensures SelfSnapshotDigest(a).Some? <==> Publishable(a)
    ensures SelfSnapshotDigest(a).Some? && SelfSnapshotDigest(a) == SelfSnapshotDigest(b) <==>
            Publishable(a) && SameSnapshot(a, b)
  {
    CandidatesAgree(a.candidates, b.candidates);
    TextsAgree(a.features, b.features);
    if SameSnapshot(a, b) {
      PublishableAlike(a, b);
    }
  }

  // ----- Merging a refreshed snapshot -----

  datatype Status = Mapped | Unmapped | Disabled

  /** Address parsing by the network library; host texts are IPv4 addresses as numbers. */
  datatype Net = Net(
    parse: string -> Option<(int, int)>, join: (int, int) -> string, usable: int -> bool,
    publicIP: string -> Option<int>)

  function Lower(c: char): char {
    if 'A' <= c <= 'Z' then c - 'A' + 'a' else c
  }

  predicate EqualFold(a: string, b: string) {
    |a| == |b| && forall i :: 0 <= i < |a| ==> Lower(a[i]) == Lower(b[i])
  }

  function UPnP(addr: string): Candidate {
    Candidate("upnp", "udp", addr, 110)
  }

  predicate SameTarget(c: Candidate, addr: string) {
    EqualFold(c.proto, "udp") && c.addr == addr
  }

  /** The endpoint of a refreshed candidate, when it may become a dial target. */
  function ValidateUPnP(net: Net, initial: SelfInfo, c: Candidate): Option<string> {
    if !EqualFold(c.typ, "upnp") || !EqualFold(c.proto, "udp") then None
    else
      match net.parse(c.addr)
      case None => None
      case Some((ip, port)) =>
        if port <= 0 || port > 65535 || !net.usable(ip) then None
        else
          var own := net.publicIP(initial.public);
          if own.Some? && net.usable(own.value) && ip != own.value then None
          else Some(net.join(ip, port))
  }

  function FirstTarget(cs: seq<Candidate>, addr: string): (k: nat)
    ensures k <= |cs|
    ensures k < |cs| ==> SameTarget(cs[k], addr)
    ensures forall i :: 0 <= i < k ==> !SameTarget(cs[i], addr)
  {
    if |cs| == 0 || SameTarget(cs[0], addr) then 0 else 1 + FirstTarget(cs[1..], addr)
  }

  /** Promotes the first candidate with this address, or appends a new one. */
  function WithUPnP(cs: seq<Candidate>, addr: string): seq<Candidate> {
    var k := FirstTarget(cs, addr);
    if k < |cs| then cs[k := UPnP(addr)] else cs + [UPnP(addr)]
  }

  method AddUPnPCandidate(candidates: seq<Candidate>, addr: string) returns (out: seq<Candidate>)
    ensures out == WithUPnP(candidates, addr)
  {
    out := candidates;
    for i := 0 to |out|
      invariant out == candidates
      invariant i <= FirstTarget(candidates, addr)
    {
      if EqualFold(out[i].proto, "udp") && out[i].addr == addr {
        assert FirstTarget(candidates, addr) == i;
        out := out[i := UPnP(addr)];
        return;
      }
    }
    return out + [UPnP(addr)];
  }

  /** Position of the first refreshed candidate that may become a dial target. */
  function FirstValid(net: Net, initial: SelfInfo, cs: seq<Candidate>): (k: nat)
    ensures k <= |cs|
    ensures k < |cs| ==> ValidateUPnP(net, initial, cs[k]).Some?
    ensures forall i :: 0 <= i < k ==> ValidateUPnP(net, initial, cs[i]).None?
  {
    if |cs| == 0 || ValidateUPnP(net, initial, cs[0]).Some? then 0 else 1 + FirstValid(net, initial, cs[1..])
  }

  function Merged(net: Net, initial: SelfInfo, refreshed: SelfInfo, status: Status): SelfInfo {
    var k := FirstValid(net, initial, refreshed.candidates);
    if status != Mapped || |refreshed.candidates| > MAX_CANDIDATES || k == |refreshed.candidates| then initial
    else
      var addr := ValidateUPnP(net, initial, refreshed.candidates[k]).value;
      initial.(candidates := WithUPnP(initial.candidates, addr))
  }

  method MergeUPnPFallbackPeer(net: Net, initial: SelfInfo, refreshed: SelfInfo, status: Status) returns (out: SelfInfo)
    ensures out == Merged(net, initial, refreshed, status)
  {
    out := initial;
    if status != Mapped || |refreshed.candidates| > MAX_CANDIDATES {
      return;
    }
    for i := 0 to |refreshed.candidates|
      invariant out == initial
      invariant i <= FirstValid(net, initial, refreshed.candidates)
    {
      var validated := ValidateUPnP(net, initial, refreshed.candidates[i]);
      if validated.Some? {
        var cs := AddUPnPCandidate(out.candidates, validated.value);
        out := out.(candidates := cs);
        return;
      }
    }
  }

  /** The two lists differ in at most one place, where the first has a mapped candidate for `addr`. */
  ghost predicate OneUPnPChange(before: seq<Candidate>, after: seq<Candidate>, addr: string) {
    || (exists i :: 0 <= i < |before| && after == before[i := UPnP(addr)] && before[i].addr == addr
                    && EqualFold(before[i].proto, "udp"))
    || after == before + [UPnP(addr)]
  }

  /**
   * A refresh changes nothing but the candidate list, and that in at most one mapped candidate. It
   * does so exactly when the peer reported a mapping and offered, within the limit, a candidate
   * that validates; the target used is then the first such candidate's.
   */
  lemma MergeChangesAtMostOneCandidate(net: Net, initial: SelfInfo, refreshed: SelfInfo, status: Status)
    ensures var out := Merged(net, initial, refreshed, status);
            && out.(candidates := initial.candidates) == initial
            && (if status == Mapped && |refreshed.candidates| <= MAX_CANDIDATES
                   && (exists c :: c in refreshed.candidates && ValidateUPnP(net, initial, c).Some?) then
                  var r := refreshed.candidates[FirstValid(net, initial, refreshed.candidates)];
                  && ValidateUPnP(net, initial, r).Some?
                  && OneUPnPChange(initial.candidates, out.candidates, ValidateUPnP(net, initial, r).value)
                  && UPnP(ValidateUPnP(net, initial, r).value) in out.candidates
                else out == initial)
  {
    var k := FirstValid(net, initial, refreshed.candidates);
    if status == Mapped && |refreshed.candidates| <= MAX_CANDIDATES && k < |refreshed.candidates| {
      var addr := ValidateUPnP(net, initial, refreshed.candidates[k]).value;
      var t := FirstTarget(initial.candidates, addr);
      var out := Merged(net, initial, refreshed, status);
      assert refreshed.candidates[k] in refreshed.candidates;
      assert out.candidates[t] == UPnP(addr);
    }
  }

  /** The merge's own words, in either case. */
  predicate SaysUPnP(typ: string) {
    |typ| == 4 && typ[0] in "uU" && typ[1] in "pP" && typ[2] in "nN" && typ[3] in "pP"
  }

  predicate SaysUdp(proto: string) {
    |proto| == 3 && proto[0] in "uU" && proto[1] in "dD" && proto[2] in "pP"
  }

  /** A refreshed candidate that names an address the peer may be reached at: its own, if that is known. */
  predicate Reachable(net: Net, public: string, c: Candidate, ip: int, port: int) {
    && SaysUPnP(c.typ) && SaysUdp(c.proto)
    && net.parse(c.addr) == Some((ip, port)) && 1 <= port <= 65535 && net.usable(ip)
    && (net.publicIP(public).Some? && net.usable(net.publicIP(public).value) ==> net.publicIP(public) == Some(ip))
  }

  lemma FoldsToUPnP(typ: string)
    ensures EqualFold(typ, "upnp") <==> SaysUPnP(typ)
  {
    assert |"upnp"| == 4 && "upnp"[0] == 'u' && "upnp"[1] == 'p' && "upnp"[2] == 'n' && "upnp"[3] == 'p';
  }

  lemma FoldsToUdp(proto: string)
    ensures EqualFold(proto, "udp") <==> SaysUdp(proto)
  {
    assert |"udp"| == 3 && "udp"[0] == 'u' && "udp"[1] == 'd' && "udp"[2] == 'p';
  }

  /** A candidate validates exactly when it names a reachable address, and then to that address. */
  lemma ValidationIsExact(net: Net, initial: SelfInfo, c: Candidate, addr: string)
    ensures ValidateUPnP(net, initial, c) == Some(addr) <==>
            exists ip, port :: Reachable(net, initial.public, c, ip, port) && addr == net.join(ip, port)
  {
    FoldsToUPnP(c.typ);
    FoldsToUdp(c.proto);
    if ValidateUPnP(net, initial, c) == Some(addr) {
      var (ip, port) := net.parse(c.addr).value;
      assert Reachable(net, initial.public, c, ip, port);
    }
  }

  /** Promotion replaces the first UDP candidate with the address, wherever it came from, or appends one. */
  lemma PromotionIsExact(cs: seq<Candidate>, addr: string, k: nat)
    requires k <= |cs| && (k < |cs| ==> SaysUdp(cs[k].proto) && cs[k].addr == addr)
    requires forall i :: 0 <= i < k ==> !(SaysUdp(cs[i].proto) && cs[i].addr == addr)
    ensures var promoted := Candidate("upnp", "udp", addr, 110);
            WithUPnP(cs, addr) == if k < |cs| then cs[k := promoted] else cs + [promoted]
  {
    forall i | 0 <= i < |cs|
      ensures SameTarget(cs[i], addr) <==> SaysUdp(cs[i].proto) && cs[i].addr == addr
    {
      FoldsToUdp(cs[i].proto);
    }
    assert FirstTarget(cs, addr) == k;
  }

  /**
   * The first reachable candidate of a reported mapping is what the merge promotes: nothing else the
   * peer lists can become a dial target.
   */
  lemma MergePromotesReachable(net: Net, initial: SelfInfo, refreshed: SelfInfo, status: Status,
                               k: nat, ip: int, port: int)
    requires status == Mapped && |refreshed.candidates| <= 16 && k < |refreshed.candidates|
    requires Reachable(net, initial.public, refreshed.candidates[k], ip, port)
    requires forall i, ip', port' :: 0 <= i < k ==>
               !Reachable(net, initial.public, refreshed.candidates[i], ip', port')
    ensures Merged(net, initial, refreshed, status) ==
            initial.(candidates := WithUPnP(initial.candidates, net.join(ip, port)))
  {
    forall i | 0 <= i < k
      ensures ValidateUPnP(net, initial, refreshed.candidates[i]).None?
    {
      var v := ValidateUPnP(net, initial, refreshed.candidates[i]);
      if v.Some? {
        ValidationIsExact(net, initial, refreshed.candidates[i], v.value);
      }
    }
    ValidationIsExact(net, initial, refreshed.candidates[k], net.join(ip, port));
    assert FirstValid(net, initial, refreshed.candidates) == k;
  }

  /** And whenever the merge changes anything, there is such a candidate, and that is what it promoted. */
  lemma MergedIsReachable(net: Net, initial: SelfInfo, refreshed: SelfInfo, status: Status)
      returns (k: nat, ip: int, port: int)
    requires Merged(net, initial, refreshed, status) != initial
    ensures status == Mapped && |refreshed.candidates| <= 16 && k < |refreshed.candidates|
    ensures Reachable(net, initial.public, refreshed.candidates[k], ip, port)
    ensures forall i, ip', port' :: 0 <= i < k ==>
              !Reachable(net, initial.public, refreshed.candidates[i], ip', port')
    ensures Merged(net, initial, refreshed, status) ==
            initial.(candidates := WithUPnP(initial.candidates, net.join(ip, port)))
  {
    k := FirstValid(net, initial, refreshed.candidates);
    var addr := ValidateUPnP(net, initial, refreshed.candidates[k]).value;
    ValidationIsExact(net, initial, refreshed.candidates[k], addr);
    ip, port :| Reachable(net, initial.public, refreshed.candidates[k], ip, port) && addr == net.join(ip, port);
    forall i, ip', port' | 0 <= i < k
      ensures !Reachable(net, initial.public, refreshed.candidates[i], ip', port')
    {
      if Reachable(net, initial.public, refreshed.candidates[i], ip', port') {
        ValidationIsExact(net, initial, refreshed.candidates[i], net.join(ip', port'));
      }
    }
  }

  /** Publishing the same mapping twice is publishing it once. */
  lemma {:induction false} WithUPnPTwice(cs: seq<Candidate>, addr: string)
    ensures WithUPnP(WithUPnP(cs, addr), addr) == WithUPnP(cs, addr)
  {
    var k, once := FirstTarget(cs, addr), WithUPnP(cs, addr);
    assert SameTarget(once[k], addr);
    assert forall i :: 0 <= i < k ==> once[i] == cs[i];
    assert FirstTarget(once, addr) == k;
  }
}
