/** `_stable_signature` with tuples, which normalizing leaves to the JSON printer. */
module TupleArguments {
  import opened Texts
  import opened Json
  import opened QSignature
  import opened CallSignature
  import Options

  datatype PyArg =
    | PyAtom(v: Scalar)
    | PyList(items: seq<PyArg>)
    | PyDict(entries: seq<PyEntry>)
    | PySet(items: seq<PyArg>)
    | PyTuple(items: seq<PyArg>)

  datatype PyEntry = PyEntry(name: string, arg: PyArg)

  /** `str` of a set, from its members in the order in which it yields them. */
  type ShownSet = seq<PyArg> -> string

  /** The tuple-free argument with the same signature. */
  function Resolve(a: PyArg, shown: ShownSet): Arg
    decreases a, 1
  {
    match a
    case PyAtom(v) => Atom(v)
    case PyList(items) => ListOf(ResolveAll(items, shown))
    case PyDict(entries) => DictOf(ResolveEntries(entries, shown))
    case PySet(items) => SetOf(ResolveAll(items, shown))
    case PyTuple(items) => ListOf(RawAll(items, shown))
  }

  function ResolveAll(items: seq<PyArg>, shown: ShownSet): (r: seq<Arg>)
    ensures |r| == |items|
    decreases items, 0
  {
    if items == [] then [] else [Resolve(items[0], shown)] + ResolveAll(items[1..], shown)
  }

  function ResolveEntries(entries: seq<PyEntry>, shown: ShownSet): (r: seq<Entry>)
    ensures |r| == |entries|
    decreases entries, 0
  {
    if entries == [] then [] else [ResolveEntry(entries[0], shown)] + ResolveEntries(entries[1..], shown)
  }

  function ResolveEntry(e: PyEntry, shown: ShownSet): Entry
    decreases e, 2
  {
    Entry(e.name, Resolve(e.arg, shown))
  }

  /** Inside a tuple the printer takes lists, tuples and dictionaries itself; a set becomes its `str`. */
  function Raw(a: PyArg, shown: ShownSet): Arg
    decreases a, 1
  {
    match a
    case PyAtom(v) => Atom(v)
    case PyList(items) => ListOf(RawAll(items, shown))
    case PyDict(entries) => DictOf(RawEntries(entries, shown))
    case PySet(items) => Atom(Str(shown(items)))
    case PyTuple(items) => ListOf(RawAll(items, shown))
  }

  function RawAll(items: seq<PyArg>, shown: ShownSet): (r: seq<Arg>)
    ensures |r| == |items|
    decreases items, 0
  {
    if items == [] then [] else [Raw(items[0], shown)] + RawAll(items[1..], shown)
  }

  function RawEntries(entries: seq<PyEntry>, shown: ShownSet): (r: seq<Entry>)
    ensures |r| == |entries|
    decreases entries, 0
  {
    if entries == [] then [] else [RawEntry(entries[0], shown)] + RawEntries(entries[1..], shown)
  }

  function RawEntry(e: PyEntry, shown: ShownSet): Entry
    decreases e, 2
  {
    Entry(e.name, Raw(e.arg, shown))
  }

  function PySignature(args: seq<PyArg>, kwargs: seq<PyEntry>, text: CallSignature.Str, shown: ShownSet): string {
    StableSignature(ResolveAll(args, shown), ResolveEntries(kwargs, shown), text)
  }

  // ---------- tuples as lists ----------

  /** The argument with each set in it, at any depth, replaced by what `str` shows of it. */
  function Printed(a: PyArg, shown: ShownSet): PyArg
    decreases a, 1
  {
    match a
    case PyAtom(_) => a
    case PyList(items) => PyList(PrintedAll(items, shown))
    case PyDict(entries) => PyDict(PrintedEntries(entries, shown))
    case PySet(items) => PyAtom(Str(shown(items)))
    case PyTuple(items) => PyTuple(PrintedAll(items, shown))
  }

  function PrintedAll(items: seq<PyArg>, shown: ShownSet): (r: seq<PyArg>)
    ensures |r| == |items|
    decreases items, 0
  {
    if items == [] then [] else [Printed(items[0], shown)] + PrintedAll(items[1..], shown)
  }

  function PrintedEntries(entries: seq<PyEntry>, shown: ShownSet): (r: seq<PyEntry>)
    ensures |r| == |entries|
    decreases entries, 0
  {
    if entries == [] then [] else [PrintedEntry(entries[0], shown)] + PrintedEntries(entries[1..], shown)
  }

  function PrintedEntry(e: PyEntry, shown: ShownSet): PyEntry
    decreases e, 2
  {
    PyEntry(e.name, Printed(e.arg, shown))
  }

  /** What is inside a tuple is normalized as if its sets had been printed before. */
  lemma {:induction false} RawIsResolvedPrint(a: PyArg, shown: ShownSet)
    ensures Raw(a, shown) == Resolve(Printed(a, shown), shown) == Raw(Printed(a, shown), shown)
    decreases a, 1
  {
    match a
    case PyAtom(_) =>
    case PyList(items) => RawAllIsResolvedPrint(items, shown);
    case PyTuple(items) => RawAllIsResolvedPrint(items, shown);
    case PyDict(entries) => RawEntriesAreResolvedPrint(entries, shown);
    case PySet(_) =>
  }

  lemma {:induction false} RawAllIsResolvedPrint(items: seq<PyArg>, shown: ShownSet)
    ensures RawAll(items, shown) == ResolveAll(PrintedAll(items, shown), shown)
         == RawAll(PrintedAll(items, shown), shown)
    decreases items, 0
  {
    if items != [] {
      RawIsResolvedPrint(items[0], shown);
      RawAllIsResolvedPrint(items[1..], shown);
      assert PrintedAll(items, shown)[0] == Printed(items[0], shown);
      assert PrintedAll(items, shown)[1..] == PrintedAll(items[1..], shown);
    }
  }

  lemma {:induction false} RawEntriesAreResolvedPrint(entries: seq<PyEntry>, shown: ShownSet)
    ensures RawEntries(entries, shown) == ResolveEntries(PrintedEntries(entries, shown), shown)
         == RawEntries(PrintedEntries(entries, shown), shown)
    decreases entries, 0
  {
    if entries != [] {
      RawIsResolvedPrint(entries[0].arg, shown);
      RawEntriesAreResolvedPrint(entries[1..], shown);
      assert PrintedEntries(entries, shown)[0] == PrintedEntry(entries[0], shown);
      assert PrintedEntries(entries, shown)[1..] == PrintedEntries(entries[1..], shown);
    }
  }

  ghost predicate NoSets(a: PyArg)
    decreases a
  {
    match a
    case PyAtom(_) => true
    case PyList(items) => forall x :: x in items ==> NoSets(x)
    case PyDict(entries) => forall e :: e in entries ==> NoSets(e.arg)
    case PySet(_) => false
    case PyTuple(items) => forall x :: x in items ==> NoSets(x)
  }

  /** Where there are no sets it does not matter whether normalizing descends. */
  lemma {:induction false} NoSetsSameForm(a: PyArg, shown: ShownSet)
    requires NoSets(a)
    ensures Resolve(a, shown) == Raw(a, shown)
    decreases a, 1
  {
    match a
    case PyList(items) => NoSetsSameForms(items, shown);
    case PyDict(entries) => NoSetsSameEntries(entries, shown);
    case _ =>
  }

  lemma {:induction false} NoSetsSameForms(items: seq<PyArg>, shown: ShownSet)
    requires forall x :: x in items ==> NoSets(x)
    ensures ResolveAll(items, shown) == RawAll(items, shown)
    decreases items, 0
  {
    if items != [] {
      assert items[0] in items;
      NoSetsSameForm(items[0], shown);
      NoSetsSameForms(items[1..], shown);
    }
  }

  lemma {:induction false} NoSetsSameEntries(entries: seq<PyEntry>, shown: ShownSet)
    requires forall e :: e in entries ==> NoSets(e.arg)
    ensures ResolveEntries(entries, shown) == RawEntries(entries, shown)
    decreases entries, 0
  {
    if entries != [] {
      assert entries[0] in entries;
      NoSetsSameForm(entries[0].arg, shown);
      NoSetsSameEntries(entries[1..], shown);
    }
  }

  /**
   Two calls share their signature iff, with tuples read as lists and the sets inside tuples
   as the texts they print, their arguments agree up to order and set-list exchange.
   */
  lemma PySignatureIffAgree(args: seq<PyArg>, kwargs: seq<PyEntry>, args': seq<PyArg>, kwargs': seq<PyEntry>,
                            text: CallSignature.Str, shown: ShownSet)
    requires Tidy(CallOf(ResolveAll(args, shown), ResolveEntries(kwargs, shown)), text)
    requires Tidy(CallOf(ResolveAll(args', shown), ResolveEntries(kwargs', shown)), text)
    ensures PySignature(args, kwargs, text, shown) == PySignature(args', kwargs', text, shown) <==>
      && Agree(Resolve(PyList(args), shown), Resolve(PyList(args'), shown), Options.Some(text))
      && Agree(Resolve(PyDict(kwargs), shown), Resolve(PyDict(kwargs'), shown), Options.Some(text))
  {
    SignatureIffAgree(ResolveAll(args, shown), ResolveEntries(kwargs, shown),
                      ResolveAll(args', shown), ResolveEntries(kwargs', shown), text);
  }

  lemma OnlyArgument(a: PyArg, shown: ShownSet)
    ensures ResolveAll([a], shown) == [Resolve(a, shown)] && RawAll([a], shown) == [Raw(a, shown)]
  {
  }

  /**
   A set inside a tuple is not canonicalized: two orders of its members share a signature iff
   `str` shows them alike.
   */
  lemma SetInTupleIff(p: seq<PyArg>, q: seq<PyArg>, text: CallSignature.Str, shown: ShownSet)
    ensures PySignature([PyTuple([PySet(p)])], [], text, shown) == PySignature([PyTuple([PySet(q)])], [], text, shown)
       <==> shown(p) == shown(q)
  {
    var a, b := PyTuple([PySet(p)]), PyTuple([PySet(q)]);
    OnlyArgument(a, shown);
    OnlyArgument(b, shown);
    OnlyArgument(PySet(p), shown);
    OnlyArgument(PySet(q), shown);
    var x, y := Resolve(a, shown), Resolve(b, shown);
    assert x == ListOf([Atom(Str(shown(p)))]) && y == ListOf([Atom(Str(shown(q)))]);
    OneForm(Atom(Str(shown(p))), text);
    OneForm(Atom(Str(shown(q))), text);
    SingleArgument(x, y, text);
  }

  /** A tuple shares its signature with the list of its items, the sets in them printed by `str`. */
  lemma TupleIsListOfPrints(items: seq<PyArg>, text: CallSignature.Str, shown: ShownSet)
    ensures PySignature([PyTuple(items)], [], text, shown)
         == PySignature([PyList(PrintedAll(items, shown))], [], text, shown)
  {
    RawAllIsResolvedPrint(items, shown);
    OnlyArgument(PyTuple(items), shown);
    OnlyArgument(PyList(PrintedAll(items, shown)), shown);
  }

  /** Without sets in it a tuple shares its signature with the list of the same items. */
  lemma TupleSharesKeyWithList(items: seq<PyArg>, text: CallSignature.Str, shown: ShownSet)
    requires forall x :: x in items ==> NoSets(x)
    ensures PySignature([PyTuple(items)], [], text, shown) == PySignature([PyList(items)], [], text, shown)
  {
    NoSetsSameForms(items, shown);
    OnlyArgument(PyTuple(items), shown);
    OnlyArgument(PyList(items), shown);
  }
}
