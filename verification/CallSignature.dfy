/** `_stable_signature`: the text that names the arguments of a call in its cache key. */
module CallSignature {
  import opened Options
  import opened Texts
  import opened Json
  import opened QSignature

  /** Null, a boolean, an integer or a string. */
  type Scalar = v: Value | !v.Arr? && !v.Obj? witness Null

  /** An argument; a set lists its members as it yields them. */
  datatype Arg =
    | Atom(v: Scalar)
    | ListOf(items: seq<Arg>)
    | DictOf(entries: seq<Entry>)
    | SetOf(items: seq<Arg>)

  datatype Entry = Entry(name: string, arg: Arg)

  /** `str` of a normalized value, by which the members of a set are sorted. */
  type Str = Value -> string

  function Normalize(a: Arg, text: Str): Value
    decreases a, 1
  {
    match a
    case Atom(v) => v
    case ListOf(items) => Arr(NormalizeAll(items, text))
    case DictOf(entries) => Obj(Sort(NameOf(), NormalizeEntries(entries, text)))
    case SetOf(items) => Arr(Sort(text, NormalizeAll(items, text)))
  }

  function NormalizeAll(items: seq<Arg>, text: Str): (r: seq<Value>)
    ensures |r| == |items|
    decreases items, 0
  {
    if items == [] then [] else [Normalize(items[0], text)] + NormalizeAll(items[1..], text)
  }

  function NormalizeEntries(entries: seq<Entry>, text: Str): (r: seq<Member>)
    ensures |r| == |entries|
    decreases entries, 0
  {
    if entries == [] then [] else [NormalizeEntry(entries[0], text)] + NormalizeEntries(entries[1..], text)
  }

  function NormalizeEntry(e: Entry, text: Str): Member
    decreases e, 2
  {
    Member(e.name, Normalize(e.arg, text))
  }

  /** The dictionary of positional and keyword arguments. */
  function CallOf(args: seq<Arg>, kwargs: seq<Entry>): Arg {
    DictOf([Entry("args", ListOf(args)), Entry("kwargs", DictOf(kwargs))])
  }

  function StableSignature(args: seq<Arg>, kwargs: seq<Entry>, text: Str): string {
    Dumps(Normalize(CallOf(args, kwargs), text))
  }

  // ---------- the same arguments ----------

  /**
   Arguments that agree up to the order of dictionaries and sets, at every level; scalars
   agree if they are equal, where the number 1 and `true` are not. With `exchange` a set also
   agrees with the list of its members in the order of their texts.
   */
  ghost predicate Agree(a: Arg, b: Arg, exchange: Option<Str>)
    decreases a, 2
  {
    match a
    case Atom(v) => b.Atom? && v == b.v
    case DictOf(entries) =>
      b.DictOf? && |entries| == |b.entries|
        && forall i :: 0 <= i < |entries| ==> HasEntry(b.entries, entries[i], exchange)
    case ListOf(items) =>
      match b {
        case ListOf(others) => |items| == |others|
          && forall i :: 0 <= i < |items| ==> Agree(items[i], others[i], exchange)
        case SetOf(others) => IsInOrder(items, exchange) && Rearranged(items, others, exchange)
        case _ => false
      }
    case SetOf(items) =>
      match b {
        case SetOf(others) => Rearranged(items, others, exchange)
        case ListOf(others) => IsInOrder(others, exchange) && Rearranged(items, others, exchange)
        case _ => false
      }
  }

  /** The list is in the order of its texts, where that makes it exchangeable. */
  ghost predicate IsInOrder(items: seq<Arg>, exchange: Option<Str>) {
    exchange.Some? && Ascending(exchange.value, NormalizeAll(items, exchange.value))
  }

  ghost predicate HasEntry(entries: seq<Entry>, e: Entry, exchange: Option<Str>)
    decreases e, 3
  {
    exists j :: 0 <= j < |entries| && entries[j].name == e.name && Agree(e.arg, entries[j].arg, exchange)
  }

  /** The two lists match one to one. */
  ghost predicate Rearranged(a: seq<Arg>, b: seq<Arg>, exchange: Option<Str>)
    decreases a, 1
  {
    if a == [] then b == [] else exists j :: 0 <= j < |b| && HeadAt(a, b, j, exchange)
  }

  ghost predicate HeadAt(a: seq<Arg>, b: seq<Arg>, j: nat, exchange: Option<Str>)
    requires a != [] && j < |b|
    decreases a, 0
  {
    Agree(a[0], b[j], exchange) && Rearranged(a[1..], Without(b, j), exchange)
  }

  ghost predicate DistinctKeys(entries: seq<Entry>) {
    forall i, j :: 0 <= i < j < |entries| ==> entries[i].name != entries[j].name
  }

  /** Dictionaries have each key once, and different members of a set have different texts. */
  ghost predicate Tidy(a: Arg, text: Str)
    decreases a
  {
    match a
    case Atom(_) => true
    case ListOf(items) => forall x :: x in items ==> Tidy(x, text)
    case DictOf(entries) => DistinctKeys(entries) && forall e :: e in entries ==> Tidy(e.arg, text)
    case SetOf(items) =>
      && KeyDetermines(text, multiset(NormalizeAll(items, text)))
      && forall x :: x in items ==> Tidy(x, text)
  }

  lemma {:induction false} NormalizeAllAt(items: seq<Arg>, text: Str, i: nat)
    requires i < |items|
    ensures NormalizeAll(items, text)[i] == Normalize(items[i], text)
    decreases |items|
  {
    if i > 0 {
      NormalizeAllAt(items[1..], text, i - 1);
    }
  }

  lemma {:induction false} NormalizeEntriesAt(entries: seq<Entry>, text: Str, i: nat)
    requires i < |entries|
    ensures NormalizeEntries(entries, text)[i] == Member(entries[i].name, Normalize(entries[i].arg, text))
    decreases |entries|
  {
    if i > 0 {
      NormalizeEntriesAt(entries[1..], text, i - 1);
    }
  }

  /** Taking one argument out takes its normal form out. */
  lemma {:induction false} NormalizeWithout(b: seq<Arg>, text: Str, j: nat)
    requires j < |b|
    ensures NormalizeAll(Without(b, j), text) == Without(NormalizeAll(b, text), j)
    decreases |b|
  {
    var x, rest := b[0], b[1..];
    assert b == [x] + rest;
    if j == 0 {
      assert Without(b, 0) == rest && Without(NormalizeAll(b, text), 0) == NormalizeAll(rest, text);
    } else {
      WithoutCons(x, rest, j - 1);
      WithoutCons(Normalize(x, text), NormalizeAll(rest, text), j - 1);
      NormalizeWithout(rest, text, j - 1);
    }
  }

  lemma FormsKeepNames(entries: seq<Entry>, text: Str)
    requires DistinctKeys(entries)
    ensures DistinctNames(NormalizeEntries(entries, text))
  {
    forall i, j | 0 <= i < j < |entries|
      ensures NormalizeEntries(entries, text)[i].name != NormalizeEntries(entries, text)[j].name
    {
      NormalizeEntriesAt(entries, text, i);
      NormalizeEntriesAt(entries, text, j);
    }
  }

  // ---------- agreement is equality of normal forms ----------

  /** Sorting a list gives another one iff that has the same members in ascending order. */
  lemma SortedListIff(text: Str, p: seq<Value>, q: seq<Value>)
    requires KeyDetermines(text, multiset(p))
    ensures Sort(text, p) == q <==> multiset(p) == multiset(q) && Ascending(text, q)
  {
    SortKeeps(text, p);
    if multiset(p) == multiset(q) && Ascending(text, q) {
      AscendingUnique(text, Sort(text, p), q);
    }
  }

  /** Tidy arguments have the same normal form iff they agree, sets and sorted lists exchanged. */
  lemma {:induction false} SameFormIffAgree(a: Arg, b: Arg, text: Str)
    requires Tidy(a, text) && Tidy(b, text)
    ensures Normalize(a, text) == Normalize(b, text) <==> Agree(a, b, Some(text))
    decreases a, 2
  {
    if a.ListOf? && b.ListOf? {
      ListsIffAgree(a.items, b.items, text);
    } else if a.DictOf? && b.DictOf? {
      DictsIffAgree(a.entries, b.entries, text);
    } else if (a.SetOf? || a.ListOf?) && (b.SetOf? || b.ListOf?) {
      RearrangedIff(a.items, b.items, text);
      var p, q := NormalizeAll(a.items, text), NormalizeAll(b.items, text);
      if a.SetOf? && b.SetOf? {
        SortIgnoresOrder(text, p, q);
      } else if a.SetOf? {
        SortedListIff(text, p, q);
      } else {
        SortedListIff(text, q, p);
      }
    }
  }

  lemma {:induction false} ListsIffAgree(a: seq<Arg>, b: seq<Arg>, text: Str)
    requires Tidy(ListOf(a), text) && Tidy(ListOf(b), text)
    ensures NormalizeAll(a, text) == NormalizeAll(b, text) <==> Agree(ListOf(a), ListOf(b), Some(text))
    decreases a, 1
  {
    var p, q := NormalizeAll(a, text), NormalizeAll(b, text);
    if |a| == |b| {
      forall i | 0 <= i < |a| ensures p[i] == q[i] <==> Agree(a[i], b[i], Some(text)) {
        assert a[i] in a && b[i] in b;
        NormalizeAllAt(a, text, i);
        NormalizeAllAt(b, text, i);
        SameFormIffAgree(a[i], b[i], text);
      }
      assert p == q <==> forall i :: 0 <= i < |a| ==> p[i] == q[i];
    }
  }

  lemma {:induction false} DictsIffAgree(a: seq<Entry>, b: seq<Entry>, text: Str)
    requires Tidy(DictOf(a), text) && Tidy(DictOf(b), text)
    ensures Sort(NameOf(), NormalizeEntries(a, text)) == Sort(NameOf(), NormalizeEntries(b, text))
       <==> Agree(DictOf(a), DictOf(b), Some(text))
    decreases a, 1
  {
    var p, q := NormalizeEntries(a, text), NormalizeEntries(b, text);
    forall i | 0 <= i < |a| ensures p[i] in q <==> HasEntry(b, a[i], Some(text)) {
      assert a[i] in a;
      EntryIffAgree(a[i], b, text);
      NormalizeEntriesAt(a, text, i);
    }
    FormsKeepNames(a, text);
    FormsKeepNames(b, text);
    SortedMembersIff(p, q);
  }

  lemma {:induction false} EntryIffAgree(e: Entry, b: seq<Entry>, text: Str)
    requires Tidy(e.arg, text) && Tidy(DictOf(b), text)
    ensures Member(e.name, Normalize(e.arg, text)) in NormalizeEntries(b, text) <==> HasEntry(b, e, Some(text))
    decreases e, 3
  {
    var m, q := Member(e.name, Normalize(e.arg, text)), NormalizeEntries(b, text);
    forall j | 0 <= j < |b| ensures q[j] == m <==> b[j].name == e.name && Agree(e.arg, b[j].arg, Some(text)) {
      assert b[j] in b;
      NormalizeEntriesAt(b, text, j);
      SameFormIffAgree(e.arg, b[j].arg, text);
    }
    if m in q {
      var j :| 0 <= j < |q| && q[j] == m;
      assert b[j].name == e.name && Agree(e.arg, b[j].arg, Some(text));
    }
    if HasEntry(b, e, Some(text)) {
      var j :| 0 <= j < |b| && b[j].name == e.name && Agree(e.arg, b[j].arg, Some(text));
      assert q[j] == m;
    }
  }

  lemma {:induction false} RearrangedIff(a: seq<Arg>, b: seq<Arg>, text: Str)
    requires (forall x :: x in a ==> Tidy(x, text)) && (forall x :: x in b ==> Tidy(x, text))
    ensures multiset(NormalizeAll(a, text)) == multiset(NormalizeAll(b, text)) <==> Rearranged(a, b, Some(text))
    decreases a, 1
  {
    var p, q := NormalizeAll(a, text), NormalizeAll(b, text);
    if a == [] {
      assert multiset(p) == multiset(q) ==> |q| == 0 by {
        assert |multiset(q)| == |q|;
      }
    } else {
      forall j | 0 <= j < |b| ensures HeadAt(a, b, j, Some(text)) <==> FormAt(p, q, j) {
        HeadAtIff(a, b, j, text);
      }
      MatchesSomewhere(p, q);
      if Rearranged(a, b, Some(text)) {
        var j := HeadOf(a, b, Some(text));
        assert FormAt(p, q, j);
      }
      if j :| 0 <= j < |q| && FormAt(p, q, j) {
        assert HeadAt(a, b, j, Some(text));
      }
    }
  }

  lemma HeadOf(a: seq<Arg>, b: seq<Arg>, exchange: Option<Str>) returns (j: nat)
    requires a != [] && Rearranged(a, b, exchange)
    ensures j < |b| && HeadAt(a, b, j, exchange)
  {
    j :| 0 <= j < |b| && HeadAt(a, b, j, exchange);
  }

  /** The head of `p` is entry `j` of `q`, and the others are the same up to order. */
  ghost predicate FormAt(p: seq<Value>, q: seq<Value>, j: nat)
    requires p != [] && j < |q|
  {
    p[0] == q[j] && multiset(p[1..]) == multiset(Without(q, j))
  }

  lemma {:induction false} HeadAtIff(a: seq<Arg>, b: seq<Arg>, j: nat, text: Str)
    requires a != [] && j < |b| && (forall x :: x in a ==> Tidy(x, text)) && (forall x :: x in b ==> Tidy(x, text))
    ensures HeadAt(a, b, j, Some(text)) <==> FormAt(NormalizeAll(a, text), NormalizeAll(b, text), j)
    decreases a, 0
  {
    SameFormIffAgree(a[0], b[j], text);
    RearrangedIff(a[1..], Without(b, j), text);
    NormalizeWithout(b, text, j);
    NormalizeAllAt(b, text, j);
  }

  /** Two lists have the same members iff the head of the first can be taken out of the second. */
  lemma MatchesSomewhere(p: seq<Value>, q: seq<Value>)
    requires p != []
    ensures multiset(p) == multiset(q) <==> exists j :: 0 <= j < |q| && FormAt(p, q, j)
  {
    TailMultiset(p);
    if multiset(p) == multiset(q) {
      assert p[0] in multiset(q);
      var j :| 0 <= j < |q| && q[j] == p[0];
      WithoutMultiset(q, j);
      MultisetCancel(p[0], multiset(p[1..]), multiset(Without(q, j)));
      assert FormAt(p, q, j);
    }
    if j :| 0 <= j < |q| && FormAt(p, q, j) {
      WithoutMultiset(q, j);
    }
  }

  // ---------- the signature of a call ----------

  /** The normal form of a call: both parts, positional arguments first. */
  lemma CallForm(args: seq<Arg>, kwargs: seq<Entry>, text: Str)
    ensures Normalize(CallOf(args, kwargs), text) ==
      Obj([Member("args", Arr(NormalizeAll(args, text))),
          Member("kwargs", Obj(Sort(NameOf(), NormalizeEntries(kwargs, text))))])
  {
    var a, b := Entry("args", ListOf(args)), Entry("kwargs", DictOf(kwargs));
    var m, n := NormalizeEntry(a, text), NormalizeEntry(b, text);
    NormalizeEntriesAt([a, b], text, 0);
    NormalizeEntriesAt([a, b], text, 1);
    assert NormalizeEntries([a, b], text) == [m, n];
    assert "args"[0] < "kwargs"[0];
    assert TextLe(m.name, n.name);
    assert Sort(NameOf(), [m, n]) == [m, n] by {
      assert [m, n][1..] == [n] && [n][1..] == [];
      assert Sort(NameOf(), [n]) == [n];
    }
  }

  /**
   Two calls share their signature iff their arguments agree up to the order of keyword
   arguments, dictionaries and sets, and the exchange of a set with the list of its members
   in the order of their texts.
   */
  lemma SignatureIffAgree(args: seq<Arg>, kwargs: seq<Entry>, args': seq<Arg>, kwargs': seq<Entry>, text: Str)
    requires Tidy(CallOf(args, kwargs), text) && Tidy(CallOf(args', kwargs'), text)
    ensures StableSignature(args, kwargs, text) == StableSignature(args', kwargs', text)
       <==> Agree(ListOf(args), ListOf(args'), Some(text)) && Agree(DictOf(kwargs), DictOf(kwargs'), Some(text))
  {
    var a, b := CallOf(args, kwargs), CallOf(args', kwargs');
    assert a.entries[0] in a.entries && a.entries[1] in a.entries;
    assert b.entries[0] in b.entries && b.entries[1] in b.entries;
    assert Tidy(a.entries[0].arg, text) && Tidy(a.entries[1].arg, text);
    assert Tidy(b.entries[0].arg, text) && Tidy(b.entries[1].arg, text);
    CallForm(args, kwargs, text);
    CallForm(args', kwargs', text);
    SameFormIffAgree(ListOf(args), ListOf(args'), text);
    SameFormIffAgree(DictOf(kwargs), DictOf(kwargs'), text);
    if StableSignature(args, kwargs, text) == StableSignature(args', kwargs', text) {
      DumpsInjective(Normalize(a, text), Normalize(b, text));
    }
  }

  /** Agreement without exchanges is agreement. */
  lemma {:induction false} AgreeMore(a: Arg, b: Arg, text: Str)
    requires Agree(a, b, None)
    ensures Agree(a, b, Some(text))
    decreases a, 2
  {
    match a
    case Atom(_) =>
    case ListOf(items) =>
      forall i | 0 <= i < |items| ensures Agree(items[i], b.items[i], Some(text)) {
        AgreeMore(items[i], b.items[i], text);
      }
    case DictOf(entries) =>
      forall i | 0 <= i < |entries| ensures HasEntry(b.entries, entries[i], Some(text)) {
        assert HasEntry(b.entries, entries[i], None);
        var j :| 0 <= j < |b.entries| && b.entries[j].name == entries[i].name
          && Agree(entries[i].arg, b.entries[j].arg, None);
        AgreeMore(entries[i].arg, b.entries[j].arg, text);
      }
    case SetOf(items) =>
      RearrangedMore(items, b.items, text);
  }

  lemma {:induction false} RearrangedMore(a: seq<Arg>, b: seq<Arg>, text: Str)
    requires Rearranged(a, b, None)
    ensures Rearranged(a, b, Some(text))
    decreases a, 1
  {
    if a != [] {
      var j :| 0 <= j < |b| && HeadAt(a, b, j, None);
      AgreeMore(a[0], b[j], text);
      RearrangedMore(a[1..], Without(b, j), text);
      assert HeadAt(a, b, j, Some(text));
    }
  }

  /**
   Two calls with the same arguments, in whatever order keyword arguments, dictionaries and
   sets yield them, have the same signature, unless different members of a set share a text.
   */
  lemma SameCallSameSignature(args: seq<Arg>, kwargs: seq<Entry>, args': seq<Arg>, kwargs': seq<Entry>, text: Str)
    requires Agree(ListOf(args), ListOf(args'), None) && Agree(DictOf(kwargs), DictOf(kwargs'), None)
    requires Tidy(CallOf(args, kwargs), text) && Tidy(CallOf(args', kwargs'), text)
    ensures StableSignature(args, kwargs, text) == StableSignature(args', kwargs', text)
  {
    AgreeMore(ListOf(args), ListOf(args'), text);
    AgreeMore(DictOf(kwargs), DictOf(kwargs'), text);
    SignatureIffAgree(args, kwargs, args', kwargs', text);
  }

  // ---------- when the order of a set shows ----------

  /** Two members with the same text stay in the order in which they came. */
  lemma {:induction false} TiesStay(text: Str, x: Value, y: Value, s: seq<Value>)
    requires x != y && text(x) == text(y)
    ensures InsertSorted(text, x, InsertSorted(text, y, s)) != InsertSorted(text, y, InsertSorted(text, x, s))
    decreases |s|
  {
    TextLeTotal(text(x), text(y));
    var xy, yx := InsertSorted(text, x, InsertSorted(text, y, s)), InsertSorted(text, y, InsertSorted(text, x, s));
    if s == [] || TextLe(text(x), text(s[0])) {
      assert xy[0] == x && yx[0] == y;
    } else {
      TiesStay(text, x, y, s[1..]);
      assert xy[1..] == InsertSorted(text, x, InsertSorted(text, y, s[1..]));
      assert yx[1..] == InsertSorted(text, y, InsertSorted(text, x, s[1..]));
    }
  }

  ghost predicate OrderHidden(text: Str, members: seq<Value>) {
    forall p :: multiset(p) == multiset(members) ==> Sort(text, p) == Sort(text, members)
  }

  lemma TwoFirst(members: seq<Value>, x: Value, y: Value) returns (rest: seq<Value>)
    requires x in members && y in members && x != y
    ensures multiset([x, y] + rest) == multiset(members) && multiset([y, x] + rest) == multiset(members)
  {
    var i :| 0 <= i < |members| && members[i] == x;
    var others := Without(members, i);
    var k :| 0 <= k < |members| && members[k] == y;
    WithoutMultiset(members, i);
    WithoutKeeps(members, i, k);
    var j :| 0 <= j < |others| && others[j] == y;
    WithoutMultiset(others, j);
    rest := Without(others, j);
    PairMultiset(x, y, rest);
    PairMultiset(y, x, rest);
  }

  lemma PairMultiset(x: Value, y: Value, rest: seq<Value>)
    ensures multiset([x, y] + rest) == multiset{x} + (multiset{y} + multiset(rest))
  {
    assert multiset([x, y] + rest) == multiset([x, y]) + multiset(rest);
  }

  lemma SortTwo(text: Str, x: Value, y: Value, rest: seq<Value>)
    ensures Sort(text, [x, y] + rest) == InsertSorted(text, x, InsertSorted(text, y, Sort(text, rest)))
  {
    var s := [x, y] + rest;
    assert s[1..] == [y] + rest && s[1..][1..] == rest;
  }

  /** A set's normal form is independent of the order in which it yields its members iff no two share a text. */
  lemma OrderHiddenIff(text: Str, members: seq<Value>)
    ensures OrderHidden(text, members) <==> KeyDetermines(text, multiset(members))
  {
    if KeyDetermines(text, multiset(members)) {
      forall p | multiset(p) == multiset(members) ensures Sort(text, p) == Sort(text, members) {
        SortIgnoresOrder(text, members, p);
      }
    }
    if OrderHidden(text, members) {
      forall x, y | x in multiset(members) && y in multiset(members) && text(x) == text(y) ensures x == y {
        if x != y {
          TieShows(text, members, x, y);
        }
      }
    }
  }

  lemma TieShows(text: Str, members: seq<Value>, x: Value, y: Value)
    requires x in members && y in members && text(x) == text(y) && x != y
    ensures !OrderHidden(text, members)
  {
    var rest := TwoFirst(members, x, y);
    TieAtFront(text, x, y, rest);
  }

  lemma TieAtFront(text: Str, x: Value, y: Value, rest: seq<Value>)
    requires text(x) == text(y) && x != y
    ensures Sort(text, [x, y] + rest) != Sort(text, [y, x] + rest)
  {
    SortTwo(text, x, y, rest);
    SortTwo(text, y, x, rest);
    TiesStay(text, x, y, Sort(text, rest));
  }

  /** The number 1 and the text "1" print alike: a call with both in one set has two signatures. */
  lemma MixedSetHasTwoSignatures(text: Str)
    requires text(Num(1)) == text(Str("1"))
    ensures StableSignature([SetOf([Atom(Num(1)), Atom(Str("1"))])], [], text)
         != StableSignature([SetOf([Atom(Str("1")), Atom(Num(1))])], [], text)
  {
    var a, b := SetOf([Atom(Num(1)), Atom(Str("1"))]), SetOf([Atom(Str("1")), Atom(Num(1))]);
    TieAtFront(text, Num(1), Str("1"), []);
    assert [Num(1), Str("1")] + [] == [Num(1), Str("1")] && [Str("1"), Num(1)] + [] == [Str("1"), Num(1)];
    TwoForms(a, text);
    TwoForms(b, text);
    if StableSignature([a], [], text) == StableSignature([b], [], text) {
      SingleArgument(a, b, text);
    }
  }

  lemma SingleArgument(a: Arg, b: Arg, text: Str)
    ensures StableSignature([a], [], text) == StableSignature([b], [], text) ==>
      Normalize(a, text) == Normalize(b, text)
  {
    if StableSignature([a], [], text) == StableSignature([b], [], text) {
      DumpsInjective(Normalize(CallOf([a], []), text), Normalize(CallOf([b], []), text));
    }
    CallForm([a], [], text);
    CallForm([b], [], text);
    NormalizeAllAt([a], text, 0);
    NormalizeAllAt([b], text, 0);
  }

  lemma TwoForms(a: Arg, text: Str)
    requires a.SetOf? && |a.items| == 2
    ensures Normalize(a, text) == Arr(Sort(text, [Normalize(a.items[0], text), Normalize(a.items[1], text)]))
  {
    NormalizeAllAt(a.items, text, 0);
    NormalizeAllAt(a.items, text, 1);
    assert NormalizeAll(a.items, text) == [Normalize(a.items[0], text), Normalize(a.items[1], text)];
  }

  // ---------- arguments without sets ----------

  /** A JSON value as an argument. */
  function FromValue(v: Value): Arg
    decreases v, 1
  {
    match v
    case Arr(items) => ListOf(FromValues(items))
    case Obj(members) => DictOf(FromMembers(members))
    case _ => Atom(v)
  }

  function FromValues(items: seq<Value>): (r: seq<Arg>)
    ensures |r| == |items|
    decreases items, 0
  {
    if items == [] then [] else [FromValue(items[0])] + FromValues(items[1..])
  }

  function FromMember(m: Member): Entry
    decreases m, 2
  {
    Entry(m.name, FromValue(m.value))
  }

  function FromMembers(members: seq<Member>): (r: seq<Entry>)
    ensures |r| == |members|
    decreases members, 0
  {
    if members == [] then [] else [FromMember(members[0])] + FromMembers(members[1..])
  }

  /** Without sets normalizing is sorting the keys. */
  lemma {:induction false} FormOfValue(v: Value, text: Str)
    ensures Normalize(FromValue(v), text) == Canon(v)
    decreases v, 1
  {
    match v
    case Arr(items) => FormsOfValues(items, text);
    case Obj(members) => FormsOfMembers(members, text);
    case _ =>
  }

  lemma {:induction false} FormsOfValues(items: seq<Value>, text: Str)
    ensures NormalizeAll(FromValues(items), text) == CanonItems(items)
    decreases items, 0
  {
    if items != [] {
      FormOfValue(items[0], text);
      FormsOfValues(items[1..], text);
    }
  }

  lemma {:induction false} FormOfMember(m: Member, text: Str)
    ensures NormalizeEntry(FromMember(m), text) == CanonMember(m)
    decreases m, 2
  {
    FormOfValue(m.value, text);
  }

  lemma {:induction false} FormsOfMembers(members: seq<Member>, text: Str)
    ensures NormalizeEntries(FromMembers(members), text) == CanonMembers(members)
    decreases members, 0
  {
    if members != [] {
      FormOfMember(members[0], text);
      FormsOfMembers(members[1..], text);
    }
  }

  /**
   Without sets two calls share their signature iff their positional arguments are the same
   in order and their keyword arguments are the same as mappings.
   */
  lemma NativeCallsIffSame(args: seq<Value>, kwargs: seq<Member>, args': seq<Value>, kwargs': seq<Member>, text: Str)
    requires WellFormed(Arr(args)) && WellFormed(Obj(kwargs)) && WellFormed(Arr(args')) && WellFormed(Obj(kwargs'))
    ensures StableSignature(FromValues(args), FromMembers(kwargs), text)
         == StableSignature(FromValues(args'), FromMembers(kwargs'), text)
       <==> Same(Arr(args), Arr(args')) && Same(Obj(kwargs), Obj(kwargs'))
  {
    FormsOfValues(args, text);
    FormsOfValues(args', text);
    FormsOfMembers(kwargs, text);
    FormsOfMembers(kwargs', text);
    CallForm(FromValues(args), FromMembers(kwargs), text);
    CallForm(FromValues(args'), FromMembers(kwargs'), text);
    SameIsAlike(Arr(args), Arr(args'));
    SameIsAlike(Obj(kwargs), Obj(kwargs'));
    var a, b := CallOf(FromValues(args), FromMembers(kwargs)), CallOf(FromValues(args'), FromMembers(kwargs'));
    if StableSignature(FromValues(args), FromMembers(kwargs), text)
       == StableSignature(FromValues(args'), FromMembers(kwargs'), text) {
      DumpsInjective(Normalize(a, text), Normalize(b, text));
    }
  }

  /**
   A set shares its signature with a list iff sorting the members by their texts gives the
   list, even if members share a text.
   */
  lemma SetSharesKeyWithList(values: seq<Value>, list: seq<Value>, text: Str)
    ensures var s, l := SetOf(FromValues(values)), ListOf(FromValues(list));
      StableSignature([s], [], text) == StableSignature([l], [], text)
      <==> Sort(text, CanonItems(values)) == CanonItems(list)
  {
    FormsOfValues(values, text);
    FormsOfValues(list, text);
    var s, l := SetOf(FromValues(values)), ListOf(FromValues(list));
    CallForm([s], [], text);
    CallForm([l], [], text);
    OneForm(s, text);
    OneForm(l, text);
    if StableSignature([s], [], text) == StableSignature([l], [], text) {
      SingleArgument(s, l, text);
    }
  }

  lemma OneForm(a: Arg, text: Str)
    ensures NormalizeAll([a], text) == [Normalize(a, text)]
  {
    NormalizeAllAt([a], text, 0);
  }
}
