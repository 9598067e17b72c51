/** `CachedQuerySet`: the order-insensitive signature of a filter tree and the query key. */
module QSignature {
  import opened Options
  import opened Texts
  import opened Json
  import opened CacheKeys

  datatype Join = And | Or

  /** A `Q` object: keyword filters, in the order they were given, and child trees. */
  datatype Q = Q(join: Join, negated: bool, filters: seq<Member>, children: seq<Q>)

  function JoinText(j: Join): string {
    if j.And? then "AND" else "OR"
  }

  function NameOf(): Member -> string {
    (m: Member) => m.name
  }

  function ItSelf(): string -> string {
    (s: string) => s
  }

  // ---------- canonical values: sort_keys=True at every level ----------

  function Canon(v: Value): Value
    decreases v, 1
  {
    match v
    case Arr(items) => Arr(CanonItems(items))
    case Obj(members) => Obj(Sort(NameOf(), CanonMembers(members)))
    case _ => v
  }

  function CanonItems(items: seq<Value>): (r: seq<Value>)
    ensures |r| == |items|
    decreases items, 0
  {
    if items == [] then [] else [Canon(items[0])] + CanonItems(items[1..])
  }

  function CanonMember(m: Member): Member
    decreases m, 2
  {
    Member(m.name, Canon(m.value))
  }

  function CanonMembers(members: seq<Member>): (r: seq<Member>)
    ensures |r| == |members|
    decreases members, 0
  {
    if members == [] then [] else [CanonMember(members[0])] + CanonMembers(members[1..])
  }

  /** `_q_signature`. */
  function Signature(q: Q): string
    decreases q, 1
  {
    Dumps(SignatureValue(q, Sort(ItSelf(), Signatures(q.children))))
  }

  function Signatures(qs: seq<Q>): (r: seq<string>)
    ensures |r| == |qs|
    decreases qs, 0
  {
    if qs == [] then [] else [Signature(qs[0])] + Signatures(qs[1..])
  }

  /** The dictionary that is dumped, with its keys in sorted order. */
  function SignatureValue(q: Q, children: seq<string>): Value {
    Obj([Member("children", Arr(Strings(children))),
         Member("filters", Canon(Obj(q.filters))),
         Member("join", Str(JoinText(q.join))),
         Member("negated", Bool(q.negated))])
  }

  function Strings(texts: seq<string>): seq<Value> {
    seq(|texts|, i requires 0 <= i < |texts| => Str(texts[i]))
  }

  lemma StringsInjective(a: seq<string>, b: seq<string>)
    requires Strings(a) == Strings(b)
    ensures a == b
  {
    assert |Strings(a)| == |a| && |Strings(b)| == |b|;
    forall i | 0 <= i < |a| ensures a[i] == b[i] {
      assert Strings(a)[i] == Str(a[i]) && Strings(b)[i] == Str(b[i]);
    }
  }

  // ---------- sameness up to order ----------

  /** A Python dictionary has each key once. */
  ghost predicate DistinctNames(members: seq<Member>) {
    forall i, j :: 0 <= i < j < |members| ==> members[i].name != members[j].name
  }

  ghost predicate WellFormed(v: Value) {
    match v
    case Arr(items) => forall x :: x in items ==> WellFormed(x)
    case Obj(members) => DistinctNames(members) && forall m :: m in members ==> WellFormed(m.value)
    case _ => true
  }

  /** Equal values, dictionaries compared as mappings. */
  ghost predicate Same(v: Value, w: Value)
    decreases v, 1
  {
    match v
    case Arr(items) => w.Arr? && |items| == |w.items| && forall i :: 0 <= i < |items| ==> Same(items[i], w.items[i])
    case Obj(members) => w.Obj? && |members| == |w.members|
      && forall i :: 0 <= i < |members| ==> HoldsSame(w.members, members[i])
    case _ => v == w
  }

  /** The dictionary has the key of `m`, with the same value. */
  ghost predicate HoldsSame(members: seq<Member>, m: Member)
    decreases m, 2
  {
    exists j :: 0 <= j < |members| && members[j].name == m.name && Same(m.value, members[j].value)
  }

  ghost predicate WellFormedQ(q: Q) {
    WellFormed(Obj(q.filters)) && forall c :: c in q.children ==> WellFormedQ(c)
  }

  /** Equal trees up to the order of keyword filters and of children, at every level. */
  ghost predicate Equivalent(a: Q, b: Q)
    decreases a, 2
  {
    a.join == b.join && a.negated == b.negated && Same(Obj(a.filters), Obj(b.filters))
      && Permuted(a.children, b.children)
  }

  function Without<T>(s: seq<T>, j: nat): seq<T>
    requires j < |s|
  {
    s[..j] + s[j + 1..]
  }

  /** The two lists match one to one under equivalence. */
  ghost predicate Permuted(a: seq<Q>, b: seq<Q>)
    decreases a, 1
  {
    if a == [] then b == [] else exists j :: 0 <= j < |b| && PermutedAt(a, b, j)
  }

  /** The head of the first list matches entry `j` of the second, and the others match. */
  ghost predicate PermutedAt(a: seq<Q>, b: seq<Q>, j: nat)
    requires a != [] && j < |b|
    decreases a, 0
  {
    Equivalent(a[0], b[j]) && Permuted(a[1..], Without(b, j))
  }

  // ---------- canonical values coincide exactly for the same values ----------

  lemma {:induction false} CanonItemsAt(items: seq<Value>, i: nat)
    requires i < |items|
    ensures CanonItems(items)[i] == Canon(items[i])
    decreases |items|
  {
    if i > 0 {
      CanonItemsAt(items[1..], i - 1);
    }
  }

  lemma {:induction false} CanonMembersAt(members: seq<Member>, i: nat)
    requires i < |members|
    ensures CanonMembers(members)[i] == Member(members[i].name, Canon(members[i].value))
    decreases |members|
  {
    if i > 0 {
      CanonMembersAt(members[1..], i - 1);
    }
  }

  lemma CanonMembersNames(members: seq<Member>)
    requires DistinctNames(members)
    ensures DistinctNames(CanonMembers(members))
  {
    forall i, j | 0 <= i < j < |members| ensures CanonMembers(members)[i].name != CanonMembers(members)[j].name {
      CanonMembersAt(members, i);
      CanonMembersAt(members, j);
    }
  }

  lemma WithoutMultiset<T>(s: seq<T>, j: nat)
    requires j < |s|
    ensures multiset(s) == multiset{s[j]} + multiset(Without(s, j))
  {
    assert s == s[..j] + ([s[j]] + s[j + 1..]);
  }

  lemma WithoutKeeps<T>(s: seq<T>, j: nat, k: nat)
    requires j < |s| && k < |s| && k != j
    ensures s[k] in Without(s, j)
  {
    var rest := Without(s, j);
    if k < j {
      assert rest[k] == s[k];
    } else {
      assert rest[k - 1] == s[k];
    }
  }

  lemma WithoutDistinct(s: seq<Member>, j: nat)
    requires DistinctNames(s) && j < |s|
    ensures DistinctNames(Without(s, j)) && DistinctNames(s[1..])
  {
    var rest := Without(s, j);
    forall i, k | 0 <= i < k < |rest| ensures rest[i].name != rest[k].name {
      var i', k' := if i < j then i else i + 1, if k < j then k else k + 1;
      assert rest[i] == s[i'] && rest[k] == s[k'];
    }
  }

  /** With distinct names, lists of equal length where one holds all of the other are permutations. */
  lemma {:induction false} ContainedIsPermutation(a: seq<Member>, b: seq<Member>)
    requires DistinctNames(a) && DistinctNames(b) && |a| == |b|
    requires forall i :: 0 <= i < |a| ==> a[i] in b
    ensures multiset(a) == multiset(b)
    decreases |a|
  {
    if a != [] {
      var j :| 0 <= j < |b| && b[j] == a[0];
      var rest := Without(b, j);
      forall i | 0 <= i < |a[1..]| ensures a[1..][i] in rest {
        assert a[i + 1] in b;
        var k :| 0 <= k < |b| && b[k] == a[i + 1];
        WithoutKeeps(b, j, k);
      }
      WithoutDistinct(a, 0);
      WithoutDistinct(b, j);
      ContainedIsPermutation(a[1..], rest);
      WithoutMultiset(b, j);
      assert a == [a[0]] + a[1..];
    }
  }

  lemma SortedEqualMeansPermutation(a: seq<Member>, b: seq<Member>)
    ensures Sort(NameOf(), a) == Sort(NameOf(), b) ==> multiset(a) == multiset(b) && |a| == |b|
  {
    SortKeeps(NameOf(), a);
    SortKeeps(NameOf(), b);
    assert |multiset(a)| == |a| && |multiset(b)| == |b|;
  }

  /** Dictionaries sorted by key coincide iff they have as many entries and each is in the other. */
  lemma SortedMembersIff(p: seq<Member>, q: seq<Member>)
    requires DistinctNames(p) && DistinctNames(q)
    ensures Sort(NameOf(), p) == Sort(NameOf(), q) <==> |p| == |q| && forall i :: 0 <= i < |p| ==> p[i] in q
  {
    if Sort(NameOf(), p) == Sort(NameOf(), q) {
      SortedEqualMeansPermutation(p, q);
      forall i | 0 <= i < |p| ensures p[i] in q {
        assert p[i] in multiset(q);
      }
    }
    if |p| == |q| && forall i :: 0 <= i < |p| ==> p[i] in q {
      ContainedIsPermutation(p, q);
      SortIgnoresOrder(NameOf(), p, q);
    }
  }

  ghost predicate Alike(v: Value, w: Value) {
    Canon(v) == Canon(w)
  }

  ghost predicate HoldsAlike(members: seq<Member>, m: Member) {
    exists j :: 0 <= j < |members| && members[j].name == m.name && Alike(m.value, members[j].value)
  }

  lemma MemberIffAlike(m: Member, b: seq<Member>)
    ensures CanonMember(m) in CanonMembers(b) <==> HoldsAlike(b, m)
  {
    forall j | 0 <= j < |b|
      ensures CanonMembers(b)[j] == CanonMember(m) <==> b[j].name == m.name && Alike(m.value, b[j].value)
    {
      CanonMembersAt(b, j);
    }
  }

  lemma ObjectsAlike(a: seq<Member>, b: seq<Member>)
    requires DistinctNames(a) && DistinctNames(b)
    ensures Alike(Obj(a), Obj(b)) <==> |a| == |b| && forall i :: 0 <= i < |a| ==> HoldsAlike(b, a[i])
  {
    CanonMembersNames(a);
    CanonMembersNames(b);
    forall i | 0 <= i < |a| ensures CanonMembers(a)[i] in CanonMembers(b) <==> HoldsAlike(b, a[i]) {
      CanonMembersAt(a, i);
      MemberIffAlike(a[i], b);
    }
    SortedMembersIff(CanonMembers(a), CanonMembers(b));
  }

  lemma ItemsAlike(a: seq<Value>, b: seq<Value>)
    requires |a| == |b|
    ensures CanonItems(a) == CanonItems(b) <==> forall i :: 0 <= i < |a| ==> Alike(a[i], b[i])
  {
    forall i | 0 <= i < |a| ensures CanonItems(a)[i] == CanonItems(b)[i] <==> Alike(a[i], b[i]) {
      CanonItemsAt(a, i);
      CanonItemsAt(b, i);
    }
  }

  /** Sorting the keys at every level identifies exactly the values that are the same. */
  lemma {:induction false} SameIsAlike(v: Value, w: Value)
    requires WellFormed(v) && WellFormed(w)
    ensures Alike(v, w) <==> Same(v, w)
    decreases v, 1
  {
    if v.Arr? && w.Arr? && |v.items| == |w.items| {
      ItemsAlike(v.items, w.items);
      forall i | 0 <= i < |v.items| ensures Alike(v.items[i], w.items[i]) <==> Same(v.items[i], w.items[i]) {
        SameIsAlike(v.items[i], w.items[i]);
      }
    } else if v.Obj? && w.Obj? {
      forall i | 0 <= i < |v.members|
        ensures HoldsAlike(w.members, v.members[i]) <==> HoldsSame(w.members, v.members[i])
      {
        assert v.members[i] in v.members;
        HoldsSameIsAlike(w.members, v.members[i]);
      }
      ObjectsAlike(v.members, w.members);
    }
  }

  lemma {:induction false} HoldsSameIsAlike(members: seq<Member>, m: Member)
    requires WellFormed(m.value) && forall n :: n in members ==> WellFormed(n.value)
    ensures HoldsAlike(members, m) <==> HoldsSame(members, m)
    decreases m, 2
  {
    forall j | 0 <= j < |members| ensures Alike(m.value, members[j].value) <==> Same(m.value, members[j].value) {
      SameIsAlike(m.value, members[j].value);
    }
    if HoldsAlike(members, m) {
      var j :| 0 <= j < |members| && members[j].name == m.name && Alike(m.value, members[j].value);
      assert Same(m.value, members[j].value);
    }
    if HoldsSame(members, m) {
      var j :| 0 <= j < |members| && members[j].name == m.name && Same(m.value, members[j].value);
      assert Alike(m.value, members[j].value);
    }
  }

  // ---------- signatures coincide exactly for equivalent trees ----------

  lemma {:induction false} SignaturesAt(qs: seq<Q>, i: nat)
    requires i < |qs|
    ensures Signatures(qs)[i] == Signature(qs[i])
    decreases |qs|
  {
    if i > 0 {
      SignaturesAt(qs[1..], i - 1);
    }
  }

  lemma WithoutAt<T>(s: seq<T>, t: seq<T>, j: nat)
    requires j < |s| && |t| == |s| - 1
    requires forall i :: 0 <= i < |t| ==> t[i] == s[if i < j then i else i + 1]
    ensures t == Without(s, j)
  {
  }

  lemma WithoutCons<T>(x: T, s: seq<T>, j: nat)
    requires j < |s|
    ensures Without([x] + s, j + 1) == [x] + Without(s, j) && Without([x] + s, 0) == s
  {
  }

  lemma SignaturesCons(q: Q, qs: seq<Q>)
    ensures Signatures([q] + qs) == [Signature(q)] + Signatures(qs)
  {
    assert ([q] + qs)[1..] == qs;
  }

  lemma {:induction false} SignaturesWithout(b: seq<Q>, j: nat)
    requires j < |b|
    ensures Signatures(Without(b, j)) == Without(Signatures(b), j)
    decreases |b|
  {
    var q, rest := b[0], b[1..];
    assert b == [q] + rest;
    SignaturesCons(q, rest);
    if j == 0 {
      assert Without(b, 0) == rest && Without(Signatures(b), 0) == Signatures(rest);
    } else {
      SignaturesWithout(rest, j - 1);
      WithoutCons(q, rest, j - 1);
      WithoutCons(Signature(q), Signatures(rest), j - 1);
      SignaturesCons(q, Without(rest, j - 1));
    }
  }

  ghost predicate HeadFits(head: string, tail: seq<string>, s: seq<string>, j: nat)
    requires j < |s|
  {
    s[j] == head && multiset(tail) == multiset(Without(s, j))
  }

  /** A list is a permutation of another iff its head occurs there and the others match without it. */
  lemma HeadMatches(head: string, tail: seq<string>, s: seq<string>)
    ensures multiset([head] + tail) == multiset(s) <==> exists j :: 0 <= j < |s| && HeadFits(head, tail, s, j)
  {
    assert multiset([head] + tail) == multiset{head} + multiset(tail);
    if multiset([head] + tail) == multiset(s) {
      assert head in multiset(s);
      var j :| 0 <= j < |s| && s[j] == head;
      WithoutMultiset(s, j);
      var rest := multiset(Without(s, j));
      assert multiset(tail) == (multiset{head} + multiset(tail)) - multiset{head};
      assert rest == (multiset{head} + rest) - multiset{head};
      assert HeadFits(head, tail, s, j);
    }
    if j :| 0 <= j < |s| && HeadFits(head, tail, s, j) {
      WithoutMultiset(s, j);
    }
  }

  lemma SignatureValueInjective(a: Q, ca: seq<string>, b: Q, cb: seq<string>)
    requires SignatureValue(a, ca) == SignatureValue(b, cb)
    ensures a.join == b.join && a.negated == b.negated && Canon(Obj(a.filters)) == Canon(Obj(b.filters)) && ca == cb
  {
    var ms, ns := SignatureValue(a, ca).members, SignatureValue(b, cb).members;
    assert ms[0] == ns[0] && ms[1] == ns[1] && ms[2] == ns[2] && ms[3] == ns[3];
    StringsInjective(ca, cb);
    assert |JoinText(And)| != |JoinText(Or)|;
  }

  lemma SignatureParts(a: Q, b: Q)
    ensures Signature(a) == Signature(b) <==>
      && a.join == b.join && a.negated == b.negated
      && Canon(Obj(a.filters)) == Canon(Obj(b.filters))
      && multiset(Signatures(a.children)) == multiset(Signatures(b.children))
  {
    var ca, cb := Sort(ItSelf(), Signatures(a.children)), Sort(ItSelf(), Signatures(b.children));
    SortIgnoresOrder(ItSelf(), Signatures(a.children), Signatures(b.children));
    if Signature(a) == Signature(b) {
      DumpsInjective(SignatureValue(a, ca), SignatureValue(b, cb));
      SignatureValueInjective(a, ca, b, cb);
    }
  }

  /** Equal signatures are exactly equality up to filter order and permutation of children. */
  lemma {:induction false} SignatureIffEquivalent(a: Q, b: Q)
    requires WellFormedQ(a) && WellFormedQ(b)
    ensures Signature(a) == Signature(b) <==> Equivalent(a, b)
    decreases a, 2
  {
    SignatureParts(a, b);
    SameIsAlike(Obj(a.filters), Obj(b.filters));
    ChildrenIffPermuted(a.children, b.children);
  }

  lemma {:induction false} ChildrenIffPermuted(a: seq<Q>, b: seq<Q>)
    requires forall c :: c in a ==> WellFormedQ(c)
    requires forall c :: c in b ==> WellFormedQ(c)
    ensures multiset(Signatures(a)) == multiset(Signatures(b)) <==> Permuted(a, b)
    decreases a, 1
  {
    if a == [] {
      assert |multiset(Signatures(b))| == |b|;
    } else {
      var head, tail := Signature(a[0]), Signatures(a[1..]);
      HeadMatches(head, tail, Signatures(b));
      forall j | 0 <= j < |b| ensures HeadFits(head, tail, Signatures(b), j) <==> PermutedAt(a, b, j) {
        HeadFitsIffPermutedAt(a, b, j);
      }
    }
  }

  lemma {:induction false} HeadFitsIffPermutedAt(a: seq<Q>, b: seq<Q>, j: nat)
    requires forall c :: c in a ==> WellFormedQ(c)
    requires forall c :: c in b ==> WellFormedQ(c)
    requires a != [] && j < |b|
    ensures HeadFits(Signature(a[0]), Signatures(a[1..]), Signatures(b), j) <==> PermutedAt(a, b, j)
    decreases a, 0
  {
    SignaturesAt(b, j);
    SignaturesWithout(b, j);
    SignatureIffEquivalent(a[0], b[j]);
    ChildrenIffPermuted(a[1..], Without(b, j));
  }

  // ---------- what a tree means ----------

  /** A lookup that compares dictionaries as mappings. */
  ghost predicate ReadsMappings(leaf: (string, Value) -> bool) {
    forall k, v, w :: Same(v, w) ==> leaf(k, v) == leaf(k, w)
  }

  /** Whether a row passes, for any reading that sees only the collection of its conditions' results. */
  ghost function Passes(q: Q, leaf: (string, Value) -> bool, combine: (Join, bool, multiset<bool>) -> bool): bool
    decreases q, 1
  {
    combine(q.join, q.negated,
        multiset(LeafResults(q.filters, leaf)) + multiset(ChildResults(q.children, leaf, combine)))
  }

  ghost function LeafResults(filters: seq<Member>, leaf: (string, Value) -> bool): seq<bool> {
    if filters == [] then [] else [leaf(filters[0].name, filters[0].value)] + LeafResults(filters[1..], leaf)
  }

  ghost function ChildResults(qs: seq<Q>, leaf: (string, Value) -> bool,
                              combine: (Join, bool, multiset<bool>) -> bool): seq<bool>
    decreases qs, 0
  {
    if qs == [] then [] else [Passes(qs[0], leaf, combine)] + ChildResults(qs[1..], leaf, combine)
  }

  lemma {:induction false} LeafResultsAt(b: seq<Member>, leaf: (string, Value) -> bool, i: nat)
    requires i < |b|
    ensures |LeafResults(b, leaf)| == |b| && LeafResults(b, leaf)[i] == leaf(b[i].name, b[i].value)
    decreases |b|
  {
    if |b| > 1 {
      LeafResultsAt(b[1..], leaf, if i > 0 then i - 1 else 0);
    }
  }

  lemma {:induction false} ChildResultsAt(b: seq<Q>, leaf: (string, Value) -> bool,
                                          combine: (Join, bool, multiset<bool>) -> bool, i: nat)
    requires i < |b|
    ensures |ChildResults(b, leaf, combine)| == |b| && ChildResults(b, leaf, combine)[i] == Passes(b[i], leaf, combine)
    decreases |b|
  {
    if |b| > 1 {
      ChildResultsAt(b[1..], leaf, combine, if i > 0 then i - 1 else 0);
    }
  }

  lemma LeafResultsWithout(b: seq<Member>, leaf: (string, Value) -> bool, j: nat)
    requires j < |b|
    ensures multiset(LeafResults(b, leaf))
      == multiset{leaf(b[j].name, b[j].value)} + multiset(LeafResults(Without(b, j), leaf))
  {
    var s, rest := LeafResults(b, leaf), Without(b, j);
    var t := LeafResults(rest, leaf);
    LeafResultsAt(b, leaf, j);
    if rest != [] { LeafResultsAt(rest, leaf, 0); }
    forall i | 0 <= i < |t| ensures t[i] == s[if i < j then i else i + 1] {
      LeafResultsAt(rest, leaf, i);
      LeafResultsAt(b, leaf, if i < j then i else i + 1);
    }
    WithoutAt(s, t, j);
    WithoutMultiset(s, j);
  }

  lemma ChildResultsWithout(b: seq<Q>, leaf: (string, Value) -> bool, combine: (Join, bool, multiset<bool>) -> bool,
                            j: nat)
    requires j < |b|
    ensures |ChildResults(b, leaf, combine)| == |b|
    ensures ChildResults(Without(b, j), leaf, combine) == Without(ChildResults(b, leaf, combine), j)
  {
    var s, rest := ChildResults(b, leaf, combine), Without(b, j);
    var t := ChildResults(rest, leaf, combine);
    ChildResultsAt(b, leaf, combine, j);
    if rest == [] {
      assert t == [];
    } else {
      ChildResultsAt(rest, leaf, combine, 0);
    }
    forall i | 0 <= i < |t| ensures t[i] == s[if i < j then i else i + 1] {
      ChildResultsAt(rest, leaf, combine, i);
      ChildResultsAt(b, leaf, combine, if i < j then i else i + 1);
    }
    WithoutAt(s, t, j);
  }

  lemma HoldsSameWithout(b: seq<Member>, j: nat, m: Member)
    requires j < |b| && HoldsSame(b, m) && m.name != b[j].name
    ensures HoldsSame(Without(b, j), m)
  {
    var k :| 0 <= k < |b| && b[k].name == m.name && Same(m.value, b[k].value);
    WithoutKeeps(b, j, k);
    var i :| 0 <= i < |Without(b, j)| && Without(b, j)[i] == b[k];
  }

  lemma RestHoldsSame(a: seq<Member>, b: seq<Member>, j: nat)
    requires DistinctNames(a) && a != [] && j < |b| && b[j].name == a[0].name
    requires forall i :: 0 <= i < |a| ==> HoldsSame(b, a[i])
    ensures forall i :: 0 <= i < |a[1..]| ==> HoldsSame(Without(b, j), a[1..][i])
  {
    forall i | 0 <= i < |a[1..]| ensures HoldsSame(Without(b, j), a[1..][i]) {
      assert HoldsSame(b, a[i + 1]);
      HoldsSameWithout(b, j, a[i + 1]);
    }
  }

  /** The same dictionary of filters gives the same collection of results. */
  lemma {:induction false} SameFiltersSameResults(a: seq<Member>, b: seq<Member>, leaf: (string, Value) -> bool)
    requires ReadsMappings(leaf) && DistinctNames(a) && DistinctNames(b) && |a| == |b|
    requires forall i :: 0 <= i < |a| ==> HoldsSame(b, a[i])
    ensures multiset(LeafResults(a, leaf)) == multiset(LeafResults(b, leaf))
    decreases |a|
  {
    if a != [] {
      assert HoldsSame(b, a[0]);
      var j :| 0 <= j < |b| && b[j].name == a[0].name && Same(a[0].value, b[j].value);
      RestHoldsSame(a, b, j);
      WithoutDistinct(a, 0);
      WithoutDistinct(b, j);
      SameFiltersSameResults(a[1..], Without(b, j), leaf);
      LeafResultsWithout(b, leaf, j);
    }
  }

  lemma {:induction false} EquivalentPass(a: Q, b: Q, leaf: (string, Value) -> bool,
                                          combine: (Join, bool, multiset<bool>) -> bool)
    requires WellFormedQ(a) && WellFormedQ(b) && ReadsMappings(leaf) && Equivalent(a, b)
    ensures Passes(a, leaf, combine) == Passes(b, leaf, combine)
    decreases a, 1
  {
    SameFiltersSameResults(a.filters, b.filters, leaf);
    PermutedPass(a.children, b.children, leaf, combine);
  }

  lemma {:induction false} PermutedPass(a: seq<Q>, b: seq<Q>, leaf: (string, Value) -> bool,
                                        combine: (Join, bool, multiset<bool>) -> bool)
    requires forall c :: c in a ==> WellFormedQ(c)
    requires forall c :: c in b ==> WellFormedQ(c)
    requires ReadsMappings(leaf) && Permuted(a, b)
    ensures multiset(ChildResults(a, leaf, combine)) == multiset(ChildResults(b, leaf, combine))
    decreases a, 0
  {
    if a != [] {
      var j :| 0 <= j < |b| && PermutedAt(a, b, j);
      EquivalentPass(a[0], b[j], leaf, combine);
      PermutedPass(a[1..], Without(b, j), leaf, combine);
      ChildResultsWithout(b, leaf, combine, j);
      ChildResultsAt(b, leaf, combine, j);
      WithoutMultiset(ChildResults(b, leaf, combine), j);
    }
  }

  /** Trees with equal signatures let the same rows pass, so sharing their cache entry is sound. */
  lemma EqualSignaturesMatchSameRows(a: Q, b: Q, leaf: (string, Value) -> bool,
                                     combine: (Join, bool, multiset<bool>) -> bool)
    requires WellFormedQ(a) && WellFormedQ(b) && ReadsMappings(leaf)
    ensures Signature(a) == Signature(b) ==> Passes(a, leaf, combine) == Passes(b, leaf, combine)
  {
    SignatureIffEquivalent(a, b);
    if Equivalent(a, b) {
      EquivalentPass(a, b, leaf, combine);
    }
  }

  // ---------- the key text of a query ----------

  /** What `_build_cache_key` reads; annotations by alias, with their resolved text. */
  datatype Query = Query(
    qs: seq<Q>,
    annotations: seq<Member>,
    orderings: seq<(string, string)>,
    limit: Option<nat>,
    offset: Option<nat>,
    distinct: bool,
    fields: seq<string>)

  /** The entries that are present, each under its name. */
  function Present(names: seq<string>, entries: seq<Option<Value>>): seq<Member>
    requires |names| == |entries|
  {
    if names == [] then []
    else (if entries[0].Some? then [Member(names[0], entries[0].value)] else []) + Present(names[1..], entries[1..])
  }

  lemma {:induction false} PresentNames(names: seq<string>, entries: seq<Option<Value>>, m: Member)
    requires |names| == |entries| && m in Present(names, entries)
    ensures m.name in names
    decreases |names|
  {
    if names != [] && !(entries[0].Some? && m == Member(names[0], entries[0].value)) {
      PresentNames(names[1..], entries[1..], m);
    }
  }

  /** With distinct names the present entries tell which were present and what they hold. */
  lemma {:induction false} PresentInjective(names: seq<string>, a: seq<Option<Value>>, b: seq<Option<Value>>)
    requires |names| == |a| == |b| && forall i, j :: 0 <= i < j < |names| ==> names[i] != names[j]
    requires Present(names, a) == Present(names, b)
    ensures a == b
    decreases |names|
  {
    if names != [] {
      var x, y := Present(names[1..], a[1..]), Present(names[1..], b[1..]);
      forall m | m in x || m in y ensures m.name != names[0] {
        if m in x { PresentNames(names[1..], a[1..], m); } else { PresentNames(names[1..], b[1..], m); }
      }
      HeadEntryEqual(names[0], a[0], b[0], x, y);
      PresentInjective(names[1..], a[1..], b[1..]);
      assert a == [a[0]] + a[1..] && b == [b[0]] + b[1..];
    }
  }

  lemma HeadEntryEqual(name: string, a: Option<Value>, b: Option<Value>, x: seq<Member>, y: seq<Member>)
    requires forall m :: m in x || m in y ==> m.name != name
    requires (if a.Some? then [Member(name, a.value)] else []) + x
      == (if b.Some? then [Member(name, b.value)] else []) + y
    ensures a == b && x == y
  {
    assert [] + x == x && [] + y == y;
    if a.Some? {
      if b.Some? {
        var l, r := [Member(name, a.value)] + x, [Member(name, b.value)] + y;
        assert l[0] == r[0] && l[1..] == x && r[1..] == y;
      }
    } else if b.Some? {
    }
  }

  function When(present: bool, v: Value): Option<Value> {
    if present then Some(v) else None
  }

  /** A number that is left out when it is missing or zero. */
  function Truthy(n: Option<nat>): nat {
    if n.Some? then n.value else 0
  }

  function Pairs(orderings: seq<(string, string)>): seq<Value> {
    seq(|orderings|, i requires 0 <= i < |orderings| => Arr([Str(orderings[i].0), Str(orderings[i].1)]))
  }

  function EntryNames(): seq<string> {
    ["annotations", "distinct", "fields", "limit", "offset", "order", "q"]
  }

  /** The entries of the dictionary that is hashed; falsy ones are left out. */
  function Entries(q: Query): (e: seq<Option<Value>>)
    ensures |e| == 7
  {
    [When(q.annotations != [], Canon(Obj(q.annotations))),
     When(q.distinct, Bool(true)),
     When(q.fields != [], Arr(Strings(q.fields))),
     When(Truthy(q.limit) != 0, Num(Truthy(q.limit))),
     When(Truthy(q.offset) != 0, Num(Truthy(q.offset))),
     When(q.orderings != [], Arr(Pairs(q.orderings))),
     When(q.qs != [], Arr(Strings(Sort(ItSelf(), Signatures(q.qs)))))]
  }

  /** The JSON text that is hashed into the key, its entries in the order of their names. */
  function KeyData(q: Query): string {
    Dumps(Obj(Present(EntryNames(), Entries(q))))
  }

  ghost predicate WellFormedQuery(q: Query) {
    WellFormed(Obj(q.annotations)) && forall c :: c in q.qs ==> WellFormedQ(c)
  }

  /** The same bound, or one is missing and the other zero. */
  predicate SameBound(m: Option<nat>, n: Option<nat>) {
    m == n || (m == None && n == Some(0)) || (m == Some(0) && n == None)
  }

  /** Queries that differ at most in the order of filters, and in a zero limit or offset. */
  ghost predicate SameQuery(a: Query, b: Query) {
    && Permuted(a.qs, b.qs)
    && Same(Obj(a.annotations), Obj(b.annotations))
    && a.orderings == b.orderings && a.distinct == b.distinct && a.fields == b.fields
    && SameBound(a.limit, b.limit) && SameBound(a.offset, b.offset)
  }

  lemma PairsInjective(a: seq<(string, string)>, b: seq<(string, string)>)
    requires Pairs(a) == Pairs(b)
    ensures a == b
  {
    assert |Pairs(a)| == |a| && |Pairs(b)| == |b|;
    forall i | 0 <= i < |a| ensures a[i] == b[i] {
      assert Pairs(a)[i] == Pairs(b)[i];
      assert Pairs(a)[i].items[0] == Pairs(b)[i].items[0] && Pairs(a)[i].items[1] == Pairs(b)[i].items[1];
    }
  }

  lemma EntryNamesDistinct()
    ensures forall i, j :: 0 <= i < j < |EntryNames()| ==> EntryNames()[i] != EntryNames()[j]
  {
    var n := EntryNames();
    assert n[0][0] == 'a' && n[1][0] == 'd' && n[2][0] == 'f' && n[3][0] == 'l' && n[4][0] == 'o' && n[5][0] == 'o'
      && n[6][0] == 'q';
    assert n[4][1] == 'f' && n[5][1] == 'r';
  }

  lemma EntriesFromKey(a: Query, b: Query)
    ensures KeyData(a) == KeyData(b) ==> Entries(a) == Entries(b)
  {
    if KeyData(a) == KeyData(b) {
      DumpsInjective(Obj(Present(EntryNames(), Entries(a))), Obj(Present(EntryNames(), Entries(b))));
      EntryNamesDistinct();
      PresentInjective(EntryNames(), Entries(a), Entries(b));
    }
  }

  lemma QueryListsAgree(a: seq<Q>, b: seq<Q>)
    requires forall c :: c in a ==> WellFormedQ(c)
    requires forall c :: c in b ==> WellFormedQ(c)
    ensures var x, y := Strings(Sort(ItSelf(), Signatures(a))), Strings(Sort(ItSelf(), Signatures(b)));
      When(a != [], Arr(x)) == When(b != [], Arr(y)) <==> Permuted(a, b)
  {
    var sa, sb := Sort(ItSelf(), Signatures(a)), Sort(ItSelf(), Signatures(b));
    assert KeyDetermines(ItSelf(), multiset(Signatures(a)));
    SortIgnoresOrder(ItSelf(), Signatures(a), Signatures(b));
    ChildrenIffPermuted(a, b);
    if Strings(sa) == Strings(sb) {
      StringsInjective(sa, sb);
    }
    if multiset(Signatures(a)) == multiset(Signatures(b)) {
      SameMultisetSameLength(Signatures(a), Signatures(b));
    }
  }

  lemma AnnotationsAgree(a: seq<Member>, b: seq<Member>)
    requires WellFormed(Obj(a)) && WellFormed(Obj(b))
    ensures When(a != [], Canon(Obj(a))) == When(b != [], Canon(Obj(b))) <==> Same(Obj(a), Obj(b))
  {
    SameIsAlike(Obj(a), Obj(b));
    if Alike(Obj(a), Obj(b)) {
      SortedEqualMeansPermutation(CanonMembers(a), CanonMembers(b));
    }
  }

  /** Two queries share their key text iff they are the same up to order and zero limits. */
  lemma KeyDataIffSameQuery(a: Query, b: Query)
    requires WellFormedQuery(a) && WellFormedQuery(b)
    ensures KeyData(a) == KeyData(b) <==> SameQuery(a, b)
  {
    AnnotationsAgree(a.annotations, b.annotations);
    QueryListsAgree(a.qs, b.qs);
    if KeyData(a) == KeyData(b) {
      EntriesFromKey(a, b);
      var e, f := Entries(a), Entries(b);
      assert e[0] == f[0] && e[1] == f[1] && e[2] == f[2] && e[3] == f[3] && e[4] == f[4] && e[5] == f[5]
        && e[6] == f[6];
      if a.fields != [] && b.fields != [] { StringsInjective(a.fields, b.fields); }
      if a.orderings != [] && b.orderings != [] { PairsInjective(a.orderings, b.orderings); }
    }
    if SameQuery(a, b) {
      assert Entries(a) == Entries(b);
    }
  }

  /** A limit of zero rows shares its key with no limit at all. */
  lemma ZeroLimitSharesKey(q: Query)
    requires WellFormedQuery(q) && q.limit == None
    ensures KeyData(q) == KeyData(q.(limit := Some(0)))
  {
    assert Entries(q) == Entries(q.(limit := Some(0)));
  }

  /** `_build_cache_key`: the model and the hashed text. */
  function QueryKey(model: string, q: Query, hash: string -> string): string {
    JoinWith(":", Prefixed(Components(model, ["hash", hash(KeyData(q))])))
  }

  /** Where the hash tells their texts apart, two queries share a key iff model and query are the same. */
  lemma QueryKeysIffSame(model: string, a: Query, model': string, b: Query, hash: string -> string)
    requires WellFormedQuery(a) && WellFormedQuery(b) && model != "" && model' != ""
    ensures (hash(KeyData(a)) == hash(KeyData(b)) ==> KeyData(a) == KeyData(b)) ==>
      (QueryKey(model, a, hash) == QueryKey(model', b, hash) <==> model == model' && SameQuery(a, b))
  {
    var x, y := ["hash", hash(KeyData(a))], ["hash", hash(KeyData(b))];
    KeysEqualIffComponentsEqual(":", model, x, model', y);
    assert KeyText(":", Components(model, x)).value == QueryKey(model, a, hash);
    assert KeyText(":", Components(model', y)).value == QueryKey(model', b, hash);
    KeyDataIffSameQuery(a, b);
    if Components(model, x) == Components(model', y) {
      assert Components(model, x)[0] == model && Components(model', y)[0] == model';
      assert Components(model, x)[2] == hash(KeyData(a)) && Components(model', y)[2] == hash(KeyData(b));
    }
  }
}
