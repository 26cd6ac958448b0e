/**
 Structural comparison. Its meaning is equality of what the two values denote when an
 object is a map from keys to values, the first of several members with one key counting.
 */
module JsonCompare {
  import opened Bytes
  import opened JsonValue

  // ---------- keys ----------

  function ToLower(b: byte): byte {
    if 65 <= b <= 90 then b + 32 else b
  }

  /** A key up to the case rule. */
  function Fold(key: seq<byte>, caseSensitive: bool): (r: seq<byte>)
    ensures |r| == |key|
  {
    if caseSensitive then key else seq(|key|, i requires 0 <= i < |key| => ToLower(key[i]))
  }

  /** The same byte, or the two cases of one ASCII letter. */
  predicate SameLetter(x: byte, y: byte) {
    x == y || (65 <= x <= 90 && y == x + 32) || (65 <= y <= 90 && x == y + 32)
  }

  /** The same key, under the case rule. */
  predicate SameKey(a: seq<byte>, b: seq<byte>, caseSensitive: bool) {
    if caseSensitive then a == b
    else |a| == |b| && forall i :: 0 <= i < |a| ==> SameLetter(a[i], b[i])
  }

  lemma LowerMeans(x: byte, y: byte)
    ensures ToLower(x) == ToLower(y) <==> SameLetter(x, y)
  {
  }

  /** Keys fold to the same bytes exactly when they are the same key. */
  lemma FoldMeans(a: seq<byte>, b: seq<byte>, caseSensitive: bool)
    ensures Fold(a, caseSensitive) == Fold(b, caseSensitive) <==> SameKey(a, b, caseSensitive)
  {
    hide ToLower, SameLetter;
    var x, y := Fold(a, caseSensitive), Fold(b, caseSensitive);
    if !caseSensitive && |a| == |b| {
      forall i | 0 <= i < |a| ensures x[i] == y[i] <==> SameLetter(a[i], b[i]) {
        LowerMeans(a[i], b[i]);
      }
    }
  }

  // ---------- the comparison, as the code runs it ----------

  /** DBL_EPSILON, two to the power of -52. */
  const EPSILON: real := 1.0 / 4503599627370496.0

  predicate CloseNumbers(x: real, y: real) {
    var largest := if Magnitude(x) > Magnitude(y) then Magnitude(x) else Magnitude(y);
    Magnitude(x - y) <= largest * EPSILON
  }

  /**
   Two numbers are close exactly when both are zero or, having one sign, the smaller in
   magnitude is at least the larger times one less two to the power of -52.
   */
  lemma CloseMeans(x: real, y: real)
    ensures CloseNumbers(x, y) <==>
            || (x == 0.0 && y == 0.0)
            || (x > 0.0 && y > 0.0 && y >= x * (1.0 - 1.0 / 4503599627370496.0) && x >= y * (1.0 - 1.0 / 4503599627370496.0))
            || (x < 0.0 && y < 0.0 && -y >= -x * (1.0 - 1.0 / 4503599627370496.0) && -x >= -y * (1.0 - 1.0 / 4503599627370496.0))
  {
  }

  /** So only the ratio of the two counts. */
  lemma CloseScales(x: real, y: real, k: real)
    requires k != 0.0
    ensures CloseNumbers(k * x, k * y) <==> CloseNumbers(x, y)
  {
    ScaledIsClose(k * x, k * y, x, y, k);
  }

  lemma ScaledIsClose(u: real, v: real, x: real, y: real, k: real)
    requires k != 0.0 && u == k * x && v == k * y
    ensures CloseNumbers(u, v) <==> CloseNumbers(x, y)
  {
    hide Magnitude, CloseNumbers;
    MagnitudeScales(x, k, u);
    MagnitudeScales(y, k, v);
    MagnitudeScales(x - y, k, u - v);
    CloseIs(x, y);
    CloseIs(u, v);
    BoundScales(Magnitude(x), Magnitude(y), Magnitude(x - y), Magnitude(k), Magnitude(u), Magnitude(v), Magnitude(u - v), EPSILON);
  }

  lemma CloseIs(x: real, y: real)
    ensures var largest := if Magnitude(x) > Magnitude(y) then Magnitude(x) else Magnitude(y);
            CloseNumbers(x, y) <==> Magnitude(x - y) <= largest * EPSILON
  {
  }

  lemma BoundScales(a: real, b: real, c: real, k: real, ka: real, kb: real, kc: real, e: real)
    requires k > 0.0 && ka == k * a && kb == k * b && kc == k * c
    ensures (kc <= (if ka > kb then ka else kb) * e) <==> (c <= (if a > b then a else b) * e)
  {
    var largest := if a > b then a else b;
    OrderScales(b, a, k);
    OrderScales(c, largest * e, k);
    assert k * (largest * e) == (k * largest) * e;
  }

  lemma MagnitudeScales(x: real, k: real, kx: real)
    requires kx == k * x
    ensures Magnitude(kx) == Magnitude(k) * Magnitude(x)
    ensures k != 0.0 ==> Magnitude(k) > 0.0
  {
    if k < 0.0 && x < 0.0 { assert k * x > 0.0; }
    if k < 0.0 && x > 0.0 { assert k * x < 0.0; }
    if k > 0.0 && x < 0.0 { assert k * x < 0.0; }
    if k > 0.0 && x > 0.0 { assert k * x > 0.0; }
  }

  lemma OrderScales(a: real, b: real, k: real)
    requires k > 0.0
    ensures k * a <= k * b <==> a <= b
    ensures k * a < k * b <==> a < b
  {
    assert k * b - k * a == k * (b - a);
  }

  /** Index of the first member with this key, or the number of members. */
  function Lookup(members: seq<Member>, key: seq<byte>, cs: bool): (i: nat)
    ensures i <= |members|
    ensures i < |members| ==> Fold(members[i].key, cs) == Fold(key, cs)
  {
    if members == [] || Fold(members[0].key, cs) == Fold(key, cs) then 0
    else 1 + Lookup(members[1..], key, cs)
  }

  function Size(t: Json): (n: nat)
    ensures n > 0
    decreases t, 1
  {
    match t
    case Array(items) => 1 + ItemsSize(items)
    case Object(members) => 1 + MembersSize(members)
    case _ => 1
  }

  function ItemsSize(items: seq<Json>): nat
    decreases items, 0
  {
    if items == [] then 0 else Size(items[0]) + ItemsSize(items[1..])
  }

  function MembersSize(members: seq<Member>): nat
    decreases members, 0
  {
    if members == [] then 0 else Size(members[0].value) + MembersSize(members[1..])
  }

  lemma {:induction false} MemberSize(members: seq<Member>, i: nat)
    requires i < |members|
    ensures Size(members[i].value) <= MembersSize(members)
    decreases i
  {
    if i > 0 {
      MemberSize(members[1..], i - 1);
    }
  }

  predicate Compare(a: Json, b: Json, cs: bool)
    decreases Size(a) + Size(b), 0
  {
    match (a, b)
    case (Null, Null) => true
    case (False, False) => true
    case (True, True) => true
    case (Number(x), Number(y)) => CloseNumbers(x, y)
    case (String(s), String(t)) => s == t
    case (Array(xs), Array(ys)) => CompareItems(xs, ys, cs)
    case (Object(ms), Object(ns)) => MembersFound(ms, ns, cs) && MembersFound(ns, ms, cs)
    case _ => false
  }

  predicate CompareItems(xs: seq<Json>, ys: seq<Json>, cs: bool)
    decreases ItemsSize(xs) + ItemsSize(ys), 1
  {
    if xs == [] || ys == [] then xs == ys
    else Compare(xs[0], ys[0], cs) && CompareItems(xs[1..], ys[1..], cs)
  }

  /** One of the two loops over an object: every member of `ms` has its counterpart in `ns`. */
  predicate MembersFound(ms: seq<Member>, ns: seq<Member>, cs: bool)
    decreases MembersSize(ms) + MembersSize(ns), 1
  {
    if ms == [] then true
    else
      var j := Lookup(ns, ms[0].key, cs);
      && j < |ns|
      && (MemberSize(ns, j); Compare(ms[0].value, ns[j].value, cs))
      && MembersFound(ms[1..], ns, cs)
  }

  // ---------- what a value denotes ----------

  datatype Meaning =
    | MNull
    | MFalse
    | MTrue
    | MNumber(value: real)
    | MString(text: seq<byte>)
    | MArray(items: seq<Meaning>)
    | MObject(members: map<seq<byte>, Meaning>)

  function Denote(t: Json, cs: bool): Meaning
    decreases t, 1
  {
    match t
    case Null => MNull
    case False => MFalse
    case True => MTrue
    case Number(v) => MNumber(v)
    case String(s) => MString(s)
    case Array(items) => MArray(DenoteItems(items, cs))
    case Object(members) => MObject(DenoteMembers(members, cs))
  }

  function DenoteItems(items: seq<Json>, cs: bool): seq<Meaning>
    decreases items, 0
  {
    if items == [] then [] else [Denote(items[0], cs)] + DenoteItems(items[1..], cs)
  }

  /** The map an object denotes: the first member with a key decides. */
  function DenoteMembers(members: seq<Member>, cs: bool): map<seq<byte>, Meaning>
    decreases members, 0
  {
    if members == [] then map[]
    else DenoteMembers(members[1..], cs)[Fold(members[0].key, cs) := Denote(members[0].value, cs)]
  }

  /** Members with one key agree, everywhere in the value. */
  predicate Coherent(t: Json, cs: bool)
    decreases t, 1
  {
    match t
    case Array(items) => CoherentItems(items, cs)
    case Object(members) => Into(members, DenoteMembers(members, cs), cs)
    case _ => true
  }

  predicate CoherentItems(items: seq<Json>, cs: bool)
    decreases items, 0
  {
    items == [] || (Coherent(items[0], cs) && CoherentItems(items[1..], cs))
  }

  /** Every member's value is coherent and is what the map `m` has for its key. */
  predicate Into(members: seq<Member>, m: map<seq<byte>, Meaning>, cs: bool)
    decreases members, 0
  {
    members == [] ||
    (&& Coherent(members[0].value, cs)
     && Fold(members[0].key, cs) in m && m[Fold(members[0].key, cs)] == Denote(members[0].value, cs)
     && Into(members[1..], m, cs))
  }

  predicate PlainNumbers(t: Json)
    decreases t, 1
  {
    match t
    case Number(v) => PlainInteger(v)
    case Array(items) => PlainItems(items)
    case Object(members) => PlainMembers(members)
    case _ => true
  }

  predicate PlainItems(items: seq<Json>)
    decreases items, 0
  {
    items == [] || (PlainNumbers(items[0]) && PlainItems(items[1..]))
  }

  predicate PlainMembers(members: seq<Member>)
    decreases members, 0
  {
    members == [] || (PlainNumbers(members[0].value) && PlainMembers(members[1..]))
  }

  // ---------- the theorem ----------

  lemma PlainNumbersAreExact(x: real, y: real)
    requires PlainInteger(x) && PlainInteger(y)
    ensures CloseNumbers(x, y) <==> x == y
  {
    var i, j := x.Floor, y.Floor;
    if i != j {
      assert Magnitude(x - y) >= 1.0;
    }
  }

  lemma {:induction false} LookupDenotes(ns: seq<Member>, key: seq<byte>, cs: bool)
    ensures var j := Lookup(ns, key, cs);
            && (j < |ns| <==> Fold(key, cs) in DenoteMembers(ns, cs))
            && (j < |ns| ==> DenoteMembers(ns, cs)[Fold(key, cs)] == Denote(ns[j].value, cs))
    decreases ns
  {
    hide Fold, Denote;
    if ns != [] {
      LookupDenotes(ns[1..], key, cs);
    }
  }

  lemma {:induction false} IntoAt(ns: seq<Member>, m: map<seq<byte>, Meaning>, j: nat, cs: bool)
    requires Into(ns, m, cs) && j < |ns|
    ensures Coherent(ns[j].value, cs)
    decreases j
  {
    hide Coherent, Denote, Fold;
    if j > 0 {
      IntoAt(ns[1..], m, j - 1, cs);
    }
  }

  lemma {:induction false} PlainAt(ns: seq<Member>, j: nat)
    requires PlainMembers(ns) && j < |ns|
    ensures PlainNumbers(ns[j].value)
    decreases j
  {
    if j > 0 {
      PlainAt(ns[1..], j - 1);
    }
  }

  /** A map that holds every member holds everything the members denote. */
  lemma {:induction false} IntoCovers(ms: seq<Member>, m: map<seq<byte>, Meaning>, cs: bool)
    requires Into(ms, m, cs)
    ensures var d := DenoteMembers(ms, cs); forall k :: k in d ==> k in m && m[k] == d[k]
    decreases ms
  {
    hide Coherent, Denote, Fold;
    if ms != [] {
      IntoCovers(ms[1..], m, cs);
    }
  }

  lemma {:induction false} BothWays(ms: seq<Member>, ns: seq<Member>, cs: bool)
    ensures Into(ms, DenoteMembers(ns, cs), cs) && Into(ns, DenoteMembers(ms, cs), cs)
            <==> && Into(ms, DenoteMembers(ms, cs), cs) && Into(ns, DenoteMembers(ns, cs), cs)
                 && DenoteMembers(ms, cs) == DenoteMembers(ns, cs)
  {
    hide Into, DenoteMembers;
    var d, e := DenoteMembers(ms, cs), DenoteMembers(ns, cs);
    if Into(ms, e, cs) && Into(ns, d, cs) {
      IntoCovers(ms, e, cs);
      IntoCovers(ns, d, cs);
      assert d == e;
    }
  }

  /** One loop over an object finds counterparts exactly for members that the other object's map holds. */
  lemma {:induction false} FoundIsInto(ms: seq<Member>, ns: seq<Member>, cs: bool)
    requires PlainMembers(ms) && PlainMembers(ns)
    ensures MembersFound(ms, ns, cs) ==> Into(ms, DenoteMembers(ns, cs), cs)
    ensures Into(ms, DenoteMembers(ns, cs), cs) && (forall j :: 0 <= j < |ns| ==> Coherent(ns[j].value, cs))
            ==> MembersFound(ms, ns, cs)
    decreases MembersSize(ms) + MembersSize(ns), 1
  {
    hide Coherent, Denote, Fold, Compare, DenoteMembers, Lookup, Size, PlainNumbers;
    if ms != [] {
      var j := Lookup(ns, ms[0].key, cs);
      LookupDenotes(ns, ms[0].key, cs);
      if j < |ns| {
        MemberSize(ns, j);
        PlainAt(ns, j);
        MembersTail(ms);
        CompareMeaning(ms[0].value, ns[j].value, cs);
      }
      MembersTail(ms);
      FoundIsInto(ms[1..], ns, cs);
    }
  }

  lemma MembersTail(ms: seq<Member>)
    requires ms != []
    ensures MembersSize(ms) == Size(ms[0].value) + MembersSize(ms[1..])
  {
  }

  lemma {:induction false} CompareMeaningItems(xs: seq<Json>, ys: seq<Json>, cs: bool)
    requires PlainItems(xs) && PlainItems(ys)
    ensures CompareItems(xs, ys, cs) <==>
            CoherentItems(xs, cs) && CoherentItems(ys, cs) && DenoteItems(xs, cs) == DenoteItems(ys, cs)
    decreases ItemsSize(xs) + ItemsSize(ys), 1
  {
    hide Coherent, Denote, Compare, PlainNumbers;
    if xs == [] && ys == [] {
    } else if xs == [] {
      assert DenoteItems(ys, cs)[0] == Denote(ys[0], cs);
      assert |DenoteItems(xs, cs)| == 0;
    } else if ys == [] {
      assert DenoteItems(xs, cs)[0] == Denote(xs[0], cs);
      assert |DenoteItems(ys, cs)| == 0;
    } else {
      CompareMeaning(xs[0], ys[0], cs);
      CompareMeaningItems(xs[1..], ys[1..], cs);
      var x, y, dx, dy := Denote(xs[0], cs), Denote(ys[0], cs), DenoteItems(xs[1..], cs), DenoteItems(ys[1..], cs);
      assert ([x] + dx)[0] == x && ([x] + dx)[1..] == dx;
      assert ([y] + dy)[0] == y && ([y] + dy)[1..] == dy;
    }
  }

  /**
   The comparison is true exactly when both values are coherent and denote the same:
   equal up to the order of members and, when asked, up to the case of keys.
   */
  lemma {:induction false} CompareMeaning(a: Json, b: Json, cs: bool)
    requires PlainNumbers(a) && PlainNumbers(b)
    ensures Compare(a, b, cs) <==> Coherent(a, cs) && Coherent(b, cs) && Denote(a, cs) == Denote(b, cs)
    decreases Size(a) + Size(b), 0
  {
    hide CompareItems, MembersFound, CoherentItems, Into, DenoteItems, DenoteMembers, ItemsSize, MembersSize,
         PlainItems, PlainMembers, CloseNumbers;
    match (a, b)
    case (Number(x), Number(y)) => PlainNumbersAreExact(x, y);
    case (Array(xs), Array(ys)) => CompareMeaningItems(xs, ys, cs);
    case (Object(ms), Object(ns)) => CompareMeaningMembers(ms, ns, cs);
    case _ =>
  }

  lemma {:induction false} CompareMeaningMembers(ms: seq<Member>, ns: seq<Member>, cs: bool)
    requires PlainMembers(ms) && PlainMembers(ns)
    ensures MembersFound(ms, ns, cs) && MembersFound(ns, ms, cs)
            <==> && Into(ms, DenoteMembers(ms, cs), cs) && Into(ns, DenoteMembers(ns, cs), cs)
                 && DenoteMembers(ms, cs) == DenoteMembers(ns, cs)
    decreases MembersSize(ms) + MembersSize(ns), 2
  {
    hide MembersFound, Into, DenoteMembers, Coherent, MembersSize, PlainMembers;
    FoundIsInto(ms, ns, cs);
    FoundIsInto(ns, ms, cs);
    BothWays(ms, ns, cs);
    if Into(ms, DenoteMembers(ms, cs), cs) {
      forall j | 0 <= j < |ms| ensures Coherent(ms[j].value, cs) { IntoAt(ms, DenoteMembers(ms, cs), j, cs); }
    }
    if Into(ns, DenoteMembers(ns, cs), cs) {
      forall j | 0 <= j < |ns| ensures Coherent(ns[j].value, cs) { IntoAt(ns, DenoteMembers(ns, cs), j, cs); }
    }
  }

  // ---------- what follows ----------

  /** No object anywhere repeats a key under the case rule. */
  predicate DistinctKeys(t: Json, cs: bool)
    decreases t, 1
  {
    match t
    case Array(items) => DistinctItems(items, cs)
    case Object(members) => DistinctMembers(members, cs)
    case _ => true
  }

  predicate DistinctItems(items: seq<Json>, cs: bool)
    decreases items, 0
  {
    items == [] || (DistinctKeys(items[0], cs) && DistinctItems(items[1..], cs))
  }

  predicate DistinctMembers(members: seq<Member>, cs: bool)
    decreases members, 0
  {
    members == [] ||
    (&& DistinctKeys(members[0].value, cs)
     && Lookup(members[1..], members[0].key, cs) == |members| - 1
     && DistinctMembers(members[1..], cs))
  }

  lemma {:induction false} DistinctIsCoherent(t: Json, cs: bool)
    requires DistinctKeys(t, cs)
    ensures Coherent(t, cs)
    decreases t, 1
  {
    hide DistinctItems, DistinctMembers, CoherentItems, Into, DenoteMembers;
    match t
    case Array(items) => DistinctItemsAreCoherent(items, cs);
    case Object(members) => DistinctMembersAreCoherent(members, cs);
    case _ =>
  }

  lemma {:induction false} DistinctItemsAreCoherent(items: seq<Json>, cs: bool)
    requires DistinctItems(items, cs)
    ensures CoherentItems(items, cs)
    decreases items, 0
  {
    hide DistinctKeys, Coherent;
    if items != [] {
      DistinctIsCoherent(items[0], cs);
      DistinctItemsAreCoherent(items[1..], cs);
    }
  }

  lemma {:induction false} DistinctMembersAreCoherent(members: seq<Member>, cs: bool)
    requires DistinctMembers(members, cs)
    ensures Into(members, DenoteMembers(members, cs), cs)
    decreases members, 0
  {
    hide DistinctKeys, Coherent, Fold, Denote, Lookup;
    if members != [] {
      var rest, key := members[1..], Fold(members[0].key, cs);
      DistinctIsCoherent(members[0].value, cs);
      DistinctMembersAreCoherent(rest, cs);
      LookupDenotes(rest, members[0].key, cs);
      IntoMore(rest, DenoteMembers(rest, cs), key, Denote(members[0].value, cs), cs);
    }
  }

  lemma {:induction false} IntoMore(ms: seq<Member>, m: map<seq<byte>, Meaning>, key: seq<byte>, v: Meaning, cs: bool)
    requires Into(ms, m, cs) && key !in m
    ensures Into(ms, m[key := v], cs)
    decreases ms
  {
    hide Coherent, Fold, Denote;
    if ms != [] {
      IntoMore(ms[1..], m, key, v, cs);
    }
  }

  /** Comparison is symmetric and transitive, and reflexive exactly on coherent values. */
  lemma {:induction false} CompareIsPartialEquivalence(a: Json, b: Json, c: Json, cs: bool)
    requires PlainNumbers(a) && PlainNumbers(b) && PlainNumbers(c)
    ensures Compare(a, b, cs) == Compare(b, a, cs)
    ensures Compare(a, b, cs) && Compare(b, c, cs) ==> Compare(a, c, cs)
    ensures Compare(a, a, cs) <==> Coherent(a, cs)
    ensures DistinctKeys(a, cs) ==> Compare(a, a, cs)
  {
    hide Compare, Coherent, Denote, DistinctKeys, PlainNumbers;
    CompareMeaning(a, b, cs);
    CompareMeaning(b, a, cs);
    CompareMeaning(b, c, cs);
    CompareMeaning(a, c, cs);
    CompareMeaning(a, a, cs);
    if DistinctKeys(a, cs) {
      DistinctIsCoherent(a, cs);
    }
  }

  lemma {:induction false} IntoPointwise(ms: seq<Member>, m: map<seq<byte>, Meaning>, cs: bool)
    ensures Into(ms, m, cs) <==>
            forall x :: x in ms ==> Coherent(x.value, cs) && Fold(x.key, cs) in m && m[Fold(x.key, cs)] == Denote(x.value, cs)
    decreases ms
  {
    hide Coherent, Fold, Denote;
    if ms != [] {
      IntoPointwise(ms[1..], m, cs);
      assert ms == [ms[0]] + ms[1..];
    }
  }

  /** Objects with the same members in any order compare equal when they are coherent. */
  lemma {:induction false} MemberOrderIsIrrelevant(ms: seq<Member>, ns: seq<Member>, cs: bool)
    requires PlainMembers(ms) && PlainMembers(ns) && multiset(ms) == multiset(ns)
    ensures Compare(Object(ms), Object(ns), cs) <==> Coherent(Object(ms), cs)
  {
    hide PlainMembers, Compare, Into, Fold, DenoteMembers;
    var d := DenoteMembers(ms, cs);
    CompareMeaning(Object(ms), Object(ns), cs);
    forall x ensures x in ms <==> x in ns { assert x in ms <==> x in multiset(ms); assert x in ns <==> x in multiset(ns); }
    IntoPointwise(ms, d, cs);
    IntoPointwise(ns, d, cs);
    IntoPointwise(ms, DenoteMembers(ns, cs), cs);
    IntoPointwise(ns, DenoteMembers(ns, cs), cs);
    BothWays(ms, ns, cs);
    if Into(ms, d, cs) {
      FirstOfMembers(ns, cs);
      FirstOfMembers(ms, cs);
    }
  }

  /** Whatever a map of members holds, some member put it there. */
  lemma {:induction false} FirstOfMembers(ms: seq<Member>, cs: bool)
    ensures forall k :: k in DenoteMembers(ms, cs) <==> exists x :: x in ms && Fold(x.key, cs) == k
    ensures forall k :: k in DenoteMembers(ms, cs) ==>
            exists x :: x in ms && Fold(x.key, cs) == k && DenoteMembers(ms, cs)[k] == Denote(x.value, cs)
    decreases ms
  {
    hide Fold, Denote;
    if ms != [] {
      FirstOfMembers(ms[1..], cs);
      assert ms == [ms[0]] + ms[1..];
      var d, e := DenoteMembers(ms, cs), DenoteMembers(ms[1..], cs);
      forall k | k in d
        ensures exists x :: x in ms && Fold(x.key, cs) == k && d[k] == Denote(x.value, cs)
      {
        if k == Fold(ms[0].key, cs) {
          assert ms[0] in ms;
        } else {
          var x :| x in ms[1..] && Fold(x.key, cs) == k && e[k] == Denote(x.value, cs);
          assert x in ms;
        }
      }
    }
  }

  /** An object that repeats a key with different values does not even equal its copy. */
  lemma RepeatedKeyBreaksReflexivity(key: seq<byte>, cs: bool)
    ensures var t := Object([Member(key, Null), Member(key, True)]); !Compare(t, t, cs)
  {
    var ms := [Member(key, Null), Member(key, True)];
    assert Lookup(ms, ms[1].key, cs) == 0;
    assert ms[1..][0] == ms[1];
    assert !MembersFound(ms[1..], ms, cs);
    assert !MembersFound(ms, ms, cs);
  }
}
