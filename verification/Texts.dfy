/** Decimal numerals, and sorting of texts by code point. */
module Texts {
  // ---------- decimal numerals ----------

  predicate IsDigit(c: char) {
    '0' <= c <= '9'
  }

  function Digit(d: nat): char
    requires d < 10
  {
    ('0' as int + d) as char
  }

  /** `str(n)`. */
  function Digits(n: nat): (s: string)
    ensures s != "" && IsDigit(s[0])
  {
    if n < 10 then [Digit(n)] else Digits(n / 10) + [Digit(n % 10)]
  }

  /** Reads leading digits onto `acc`; returns the number and the remaining text. */
  function ReadDigits(s: string, acc: nat): (nat, string) {
    if s != "" && IsDigit(s[0]) then ReadDigits(s[1..], 10 * acc + (s[0] as int - '0' as int)) else (acc, s)
  }

  lemma {:induction false} ReadDigitsOf(n: nat, rest: string)
    ensures ReadDigits(Digits(n) + rest, 0) == ReadDigits(rest, n)
    decreases n
  {
    if n < 10 {
      assert (Digits(n) + rest)[1..] == rest;
    } else {
      var last := [Digit(n % 10)];
      ReadDigitsOf(n / 10, last + rest);
      assert Digits(n) + rest == Digits(n / 10) + (last + rest);
      assert (last + rest)[1..] == rest;
    }
  }

  /** A numeral followed by something that is no digit can be read back. */
  lemma NumeralReadsBack(n: nat, rest: string)
    requires rest == "" || !IsDigit(rest[0])
    ensures ReadDigits(Digits(n) + rest, 0) == (n, rest)
  {
    ReadDigitsOf(n, rest);
  }

  // ---------- sorting ----------

  /** `separator.join(parts)`. */
  function JoinWith(separator: string, parts: seq<string>): string {
    if parts == [] then ""
    else if |parts| == 1 then parts[0]
    else parts[0] + separator + JoinWith(separator, parts[1..])
  }

  /** `s <= t` for Python strings: by code point, a prefix first. */
  predicate TextLe(s: string, t: string) {
    s == "" || (t != "" && (s[0] < t[0] || (s[0] == t[0] && TextLe(s[1..], t[1..]))))
  }

  /** One text is at most another iff it is a prefix, or smaller where they first differ. */
  lemma {:induction false} TextLeIff(s: string, t: string)
    ensures TextLe(s, t) <==> s <= t || exists k :: 0 <= k < |s| && k < |t| && s[..k] == t[..k] && s[k] < t[k]
    decreases |s|
  {
    if s != "" && t != "" {
      TextLeIff(s[1..], t[1..]);
      assert s == [s[0]] + s[1..] && t == [t[0]] + t[1..];
      if k :| 0 <= k < |s| && k < |t| && s[..k] == t[..k] && s[k] < t[k] && k > 0 {
        assert s[1..][..k - 1] == s[..k][1..] && t[1..][..k - 1] == t[..k][1..];
        assert s[0] == s[..k][0] == t[..k][0] == t[0];
        assert s[1..][k - 1] < t[1..][k - 1];
      }
      if s[0] == t[0] {
        if k :| 0 <= k < |s[1..]| && k < |t[1..]| && s[1..][..k] == t[1..][..k] && s[1..][k] < t[1..][k] {
          assert s[..k + 1] == [s[0]] + s[1..][..k] && t[..k + 1] == [t[0]] + t[1..][..k];
          assert s[k + 1] < t[k + 1];
        }
        assert s <= t <==> s[1..] <= t[1..];
      } else {
        assert s[..0] == t[..0];
      }
    }
  }

  lemma {:induction false} TextLeTotal(s: string, t: string)
    ensures TextLe(s, t) || TextLe(t, s)
    decreases |s|
  {
    if s != "" && t != "" && s[0] == t[0] {
      TextLeTotal(s[1..], t[1..]);
    }
  }

  lemma {:induction false} TextLeAntisymmetric(s: string, t: string)
    requires TextLe(s, t) && TextLe(t, s)
    ensures s == t
    decreases |s|
  {
    if s != "" && t != "" {
      TextLeAntisymmetric(s[1..], t[1..]);
      assert s == [s[0]] + s[1..] && t == [t[0]] + t[1..];
    }
  }

  lemma {:induction false} TextLeTransitive(s: string, t: string, u: string)
    requires TextLe(s, t) && TextLe(t, u)
    ensures TextLe(s, u)
    decreases |s|
  {
    if s != "" && s[0] == t[0] && t[0] == u[0] {
      TextLeTransitive(s[1..], t[1..], u[1..]);
    }
  }

  /** A keyed list in ascending order of its keys. */
  ghost predicate Ascending<T>(key: T -> string, s: seq<T>) {
    forall i, j :: 0 <= i < j < |s| ==> TextLe(key(s[i]), key(s[j]))
  }

  function InsertSorted<T>(key: T -> string, x: T, s: seq<T>): seq<T> {
    if s == [] then [x]
    else if TextLe(key(x), key(s[0])) then [x] + s
    else [s[0]] + InsertSorted(key, x, s[1..])
  }

  /** `sorted(s, key=key)`. */
  function Sort<T>(key: T -> string, s: seq<T>): seq<T> {
    if s == [] then [] else InsertSorted(key, s[0], Sort(key, s[1..]))
  }

  lemma {:induction false} InsertKeeps<T>(key: T -> string, x: T, s: seq<T>)
    requires Ascending(key, s)
    ensures multiset(InsertSorted(key, x, s)) == multiset{x} + multiset(s)
    ensures Ascending(key, InsertSorted(key, x, s))
    decreases |s|
  {
    if s != [] {
      assert s == [s[0]] + s[1..];
      if TextLe(key(x), key(s[0])) {
        forall i | 0 <= i < |s| ensures TextLe(key(x), key(s[i])) {
          if i > 0 { TextLeTransitive(key(x), key(s[0]), key(s[i])); }
        }
      } else {
        TextLeTotal(key(x), key(s[0]));
        InsertKeeps(key, x, s[1..]);
        var rest := InsertSorted(key, x, s[1..]);
        forall i | 0 <= i < |rest| ensures TextLe(key(s[0]), key(rest[i])) {
          assert rest[i] in multiset(rest);
          assert rest[i] == x || rest[i] in s[1..];
        }
      }
    }
  }

  lemma {:induction false} SortKeeps<T>(key: T -> string, s: seq<T>)
    ensures multiset(Sort(key, s)) == multiset(s) && Ascending(key, Sort(key, s))
    decreases |s|
  {
    if s != [] {
      assert s == [s[0]] + s[1..];
      SortKeeps(key, s[1..]);
      InsertKeeps(key, s[0], Sort(key, s[1..]));
    }
  }

  lemma TailMultiset<T>(s: seq<T>)
    requires s != []
    ensures multiset(s) == multiset{s[0]} + multiset(s[1..])
  {
    assert s == [s[0]] + s[1..];
  }

  /** Equal keys mean equal members. */
  ghost predicate KeyDetermines<T(!new)>(key: T -> string, m: multiset<T>) {
    forall x, y :: x in m && y in m && key(x) == key(y) ==> x == y
  }

  /** Among members with distinct keys an ascending list starts with a determined one. */
  lemma AscendingHead<T(!new)>(key: T -> string, a: seq<T>, b: seq<T>)
    requires Ascending(key, a) && Ascending(key, b) && multiset(a) == multiset(b) && a != [] && b != []
    requires KeyDetermines(key, multiset(a))
    ensures a[0] == b[0]
  {
    assert a[0] in multiset(b) && b[0] in multiset(a);
    var i :| 0 <= i < |b| && b[i] == a[0];
    var j :| 0 <= j < |a| && a[j] == b[0];
    if key(a[0]) != key(b[0]) {
      TextLeAntisymmetric(key(a[0]), key(b[0]));
    }
  }

  lemma MultisetCancel<T>(x: T, c: multiset<T>, d: multiset<T>)
    requires multiset{x} + c == multiset{x} + d
    ensures c == d
  {
    assert c == (multiset{x} + c) - multiset{x};
    assert d == (multiset{x} + d) - multiset{x};
  }

  lemma AscendingTails<T(!new)>(key: T -> string, a: seq<T>, b: seq<T>)
    requires Ascending(key, a) && Ascending(key, b) && multiset(a) == multiset(b)
    requires KeyDetermines(key, multiset(a)) && a != [] && b != []
    ensures a[0] == b[0] && multiset(a[1..]) == multiset(b[1..])
    ensures KeyDetermines(key, multiset(a[1..]))
  {
    AscendingHead(key, a, b);
    TailMultiset(a);
    TailMultiset(b);
    MultisetCancel(a[0], multiset(a[1..]), multiset(b[1..]));
  }

  lemma SameMultisetSameLength<T>(a: seq<T>, b: seq<T>)
    requires multiset(a) == multiset(b)
    ensures |a| == |b|
  {
    assert |multiset(a)| == |a| && |multiset(b)| == |b|;
  }

  /** Two ascending lists of the same members are equal if equal keys mean equal members. */
  lemma {:induction false} AscendingUnique<T(!new)>(key: T -> string, a: seq<T>, b: seq<T>)
    requires Ascending(key, a) && Ascending(key, b) && multiset(a) == multiset(b)
    requires KeyDetermines(key, multiset(a))
    ensures a == b
    decreases |a|
  {
    SameMultisetSameLength(a, b);
    if a != [] {
      AscendingTails(key, a, b);
      AscendingUnique(key, a[1..], b[1..]);
      assert a == [a[0]] + a[1..] && b == [b[0]] + b[1..];
    }
  }

  /** Sorting forgets exactly the order, provided equal keys mean equal members. */
  lemma SortIgnoresOrder<T(!new)>(key: T -> string, a: seq<T>, b: seq<T>)
    requires KeyDetermines(key, multiset(a))
    ensures Sort(key, a) == Sort(key, b) <==> multiset(a) == multiset(b)
  {
    SortKeeps(key, a);
    SortKeeps(key, b);
    if multiset(a) == multiset(b) {
      AscendingUnique(key, Sort(key, a), Sort(key, b));
    }
  }
}
