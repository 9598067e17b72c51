/** `CacheKey`: length-prefixed components joined by a separator, and how to read them back. */
module CacheKeys {
  import opened Options
  import opened Texts

  /** `f"{len(value)}:{value}"`. */
  function LengthPrefixed(value: string): string {
    Digits(|value|) + ":" + value
  }

  function Prefixed(values: seq<string>): seq<string> {
    seq(|values|, i requires 0 <= i < |values| => LengthPrefixed(values[i]))
  }

  /** The components of a key: the prefix, unless it is empty, and the parts. */
  function Components(prefix: string, parts: seq<string>): seq<string> {
    (if prefix == "" then [] else [prefix]) + parts
  }

  datatype KeyError = EmptyKey

  function KeyText(separator: string, components: seq<string>): Result<string, KeyError> {
    if components == [] then Err(EmptyKey) else Ok(JoinWith(separator, Prefixed(components)))
  }

  class CacheKey {
    const prefix: string
    const separator: string
    var parts: seq<string>     // already length-prefixed, as the builder keeps them
    ghost var added: seq<string>

    ghost predicate Valid()
      reads this
    {
      parts == Prefixed(added)
    }

    constructor (prefix: string, separator: string)
      ensures this.prefix == prefix && this.separator == separator && Valid() && added == []
    {
      this.prefix, this.separator, this.parts, this.added := prefix, separator, [], [];
    }

    method Add(more: seq<string>)
      requires Valid()
      modifies this
      ensures Valid() && added == old(added) + more
    {
      parts := parts + Prefixed(more);
      added := added + more;
    }

    method Build() returns (r: Result<string, KeyError>)
      requires Valid()
      ensures r == KeyText(separator, Components(prefix, added))
    {
      var components := if prefix != "" then [LengthPrefixed(prefix)] + parts else parts;
      assert components == Prefixed(Components(prefix, added));
      if components == [] {
        return Err(EmptyKey);
      }
      r := Ok(JoinWith(separator, components));
    }
  }

  // ---------- reading a key back ----------

  /** The component list of a key text, if it is one. */
  function Decode(separator: string, s: string): Option<seq<string>>
    decreases |s|
  {
    var (n, rest) := ReadDigits(s, 0);
    if rest == "" || rest[0] != ':' || |rest| > |s| || |rest| - 1 < n then None
    else
      var value, tail := rest[1..n + 1], rest[n + 1..];
      if tail == "" then Some([value])
      else if !(separator <= tail) then None
      else
        match Decode(separator, tail[|separator|..])
        case None => None
        case Some(more) => Some([value] + more)
  }

  /**
   The decoder recovers the exact component list, for every separator, the empty one
   included, and whatever the components contain.
   */
  lemma {:induction false} DecodeBuilt(separator: string, components: seq<string>)
    requires components != []
    ensures Decode(separator, KeyText(separator, components).value) == Some(components)
    decreases |components|
  {
    var c := components[0];
    var s := JoinWith(separator, Prefixed(components));
    var tail := if |components| == 1 then "" else separator + JoinWith(separator, Prefixed(components[1..]));
    assert Prefixed(components)[1..] == Prefixed(components[1..]);
    assert s == Digits(|c|) + (":" + c + tail);
    NumeralReadsBack(|c|, ":" + c + tail);
    var rest := ":" + c + tail;
    assert rest[1..|c| + 1] == c && rest[|c| + 1..] == tail;
    if |components| > 1 {
      DecodeBuilt(separator, components[1..]);
      var inner := JoinWith(separator, Prefixed(components[1..]));
      assert tail[|separator|..] == inner;
      assert components == [c] + components[1..];
    } else {
      assert components == [c];
    }
  }

  /** Two keys with the same separator are the same text iff they have the same components. */
  lemma KeysEqualIffComponentsEqual(separator: string, p: string, a: seq<string>, q: string, b: seq<string>)
    requires Components(p, a) != [] && Components(q, b) != []
    ensures KeyText(separator, Components(p, a)) == KeyText(separator, Components(q, b)) <==>
      Components(p, a) == Components(q, b)
  {
    DecodeBuilt(separator, Components(p, a));
    DecodeBuilt(separator, Components(q, b));
  }

  // ---------- the keys of cached models ----------

  /** The alternating parts of a key. */
  function Flattened(kwargs: seq<(string, string)>): seq<string> {
    if kwargs == [] then [] else [kwargs[0].0, kwargs[0].1] + Flattened(kwargs[1..])
  }

  function ByName(): ((string, string)) -> string {
    (kw: (string, string)) => kw.0
  }

  /** `_cache_key_for(op, **kwargs)` of a model class: the keyword arguments are sorted by name. */
  function ModelKey(cls: string, op: string, kwargs: seq<(string, string)>): string {
    JoinWith(":", Prefixed(Components(cls, [op] + Flattened(Sort(ByName(), kwargs)))))
  }

  lemma {:induction false} FlattenedInjective(a: seq<(string, string)>, b: seq<(string, string)>)
    requires Flattened(a) == Flattened(b)
    ensures a == b
    decreases |a|
  {
    if a != [] && b != [] {
      assert Flattened(a)[0] == a[0].0 && Flattened(a)[1] == a[0].1 && Flattened(a)[2..] == Flattened(a[1..]);
      assert Flattened(b)[0] == b[0].0 && Flattened(b)[1] == b[0].1 && Flattened(b)[2..] == Flattened(b[1..]);
      FlattenedInjective(a[1..], b[1..]);
    }
  }

  /** Keys with the same class have the same operation and the same sorted arguments. */
  lemma ModelKeyParts(cls: string, op: string, a: seq<(string, string)>, op': string, b: seq<(string, string)>)
    ensures ModelKey(cls, op, a) == ModelKey(cls, op', b) <==> op == op' && Sort(ByName(), a) == Sort(ByName(), b)
  {
    var c, d := Sort(ByName(), a), Sort(ByName(), b);
    var x, y := [op] + Flattened(c), [op'] + Flattened(d);
    KeysEqualIffComponentsEqual(":", cls, x, cls, y);
    assert KeyText(":", Components(cls, x)).value == ModelKey(cls, op, a);
    assert KeyText(":", Components(cls, y)).value == ModelKey(cls, op', b);
    if ModelKey(cls, op, a) == ModelKey(cls, op', b) {
      assert Components(cls, x) == Components(cls, y);
      if cls != "" {
        assert Components(cls, x)[1..] == x && Components(cls, y)[1..] == y;
      } else {
        assert Components(cls, x) == x && Components(cls, y) == y;
      }
      assert x == y;
      assert x[0] == op && y[0] == op' && x[1..] == Flattened(c) && y[1..] == Flattened(d);
      FlattenedInjective(c, d);
    }
  }

  /** Keyword arguments have different names. */
  ghost predicate DifferentNames(kwargs: seq<(string, string)>) {
    forall i, j :: 0 <= i < j < |kwargs| ==> kwargs[i].0 != kwargs[j].0
  }

  /**
   Within a class two lookups share a key iff operation and arguments are equal, in whatever
   order the arguments are given.
   */
  lemma ModelKeysDistinct(cls: string, op: string, a: seq<(string, string)>, op': string, b: seq<(string, string)>)
    requires DifferentNames(a)
    ensures ModelKey(cls, op, a) == ModelKey(cls, op', b) <==> op == op' && multiset(a) == multiset(b)
  {
    ModelKeyParts(cls, op, a, op', b);
    forall x, y | x in multiset(a) && y in multiset(a) && x.0 == y.0 ensures x == y {
      assert x in a && y in a;
    }
    SortIgnoresOrder(ByName(), a, b);
  }

  /** A key text as users of the cache see it. */
  lemma KeyTextShown()
    ensures KeyText("/", Components("p", ["user", "1:2"])) == Ok("1:p/4:user/3:1:2")
  {
    assert Digits(1) == "1" && Digits(3) == "3" && Digits(4) == "4";
    assert LengthPrefixed("p") == "1:p" && LengthPrefixed("user") == "4:user" && LengthPrefixed("1:2") == "3:1:2";
    assert Prefixed(["p", "user", "1:2"]) == ["1:p", "4:user", "3:1:2"];
    assert Components("p", ["user", "1:2"]) == ["p", "user", "1:2"];
    JoinThree("/", "1:p", "4:user", "3:1:2");
    assert "1:p" + "/" + ("4:user" + "/" + "3:1:2") == "1:p/4:user/3:1:2";
  }

  /** The components of a lookup key: class, operation, then the arguments sorted by name. */
  lemma ModelKeyShown(cls: string)
    requires cls != ""
    ensures ModelKey(cls, "get", [("name", "x"), ("id", "7")])
      == KeyText(":", [cls, "get", "id", "7", "name", "x"]).value
  {
    SortedPair();
    assert Components(cls, ["get"] + ["id", "7", "name", "x"]) == [cls, "get", "id", "7", "name", "x"];
  }

  lemma JoinThree(separator: string, a: string, b: string, c: string)
    ensures JoinWith(separator, [a, b, c]) == a + separator + (b + separator + c)
  {
    assert [a, b, c][1..] == [b, c] && [b, c][1..] == [c];
    assert JoinWith(separator, [c]) == c;
    assert JoinWith(separator, [b, c]) == b + separator + c;
  }

  lemma SortedPair()
    ensures Flattened(Sort(ByName(), [("name", "x"), ("id", "7")])) == ["id", "7", "name", "x"]
  {
    var kws := [("name", "x"), ("id", "7")];
    assert kws[1..] == [("id", "7")] && kws[1..][1..] == [];
    assert Sort(ByName(), kws[1..]) == [("id", "7")];
    assert Sort(ByName(), kws) == [("id", "7"), ("name", "x")];
    assert [("id", "7"), ("name", "x")][1..] == [("name", "x")] && [("name", "x")][1..] == [];
  }
}
