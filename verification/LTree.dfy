/** Materialised paths: dot-separated text and the label sequences it stands for. */
module LTree {
  import opened Options
  import opened Texts

  type Label = string

  /** The labels with one more character in front of the first. */
  function Grow(c: char, labels: seq<Label>): (r: seq<Label>)
    requires labels != []
    ensures |r| == |labels|
  {
    [[c] + labels[0]] + labels[1..]
  }

  /** `str.split(".")`; the empty text splits into one empty label. */
  function Split(s: string): (r: seq<Label>)
    ensures |r| >= 1
  {
    if s == "" then [""]
    else
      var rest := Split(s[1..]);
      if s[0] == '.' then [""] + rest else Grow(s[0], rest)
  }

  /** `".".join(labels)`. */
  function Join(labels: seq<Label>): string {
    JoinWith(".", labels)
  }

  predicate DotFree(labels: seq<Label>) {
    forall i :: 0 <= i < |labels| ==> '.' !in labels[i]
  }

  lemma JoinCons(l: Label, labels: seq<Label>)
    requires labels != []
    ensures Join([l] + labels) == l + "." + Join(labels)
  {
    assert ([l] + labels)[1..] == labels;
  }

  lemma {:induction false} JoinSplit(s: string)
    ensures Join(Split(s)) == s
    decreases |s|
  {
    if s != "" {
      var rest := Split(s[1..]);
      JoinSplit(s[1..]);
      assert s == [s[0]] + s[1..];
      if s[0] == '.' {
        JoinCons("", rest);
        assert "" + "." + s[1..] == "." + s[1..];
      }
    }
  }

  lemma {:induction false} SplitDotFree(s: string)
    ensures DotFree(Split(s))
    decreases |s|
  {
    if s != "" {
      SplitDotFree(s[1..]);
    }
  }

  /** Splitting at a dot in the middle. */
  lemma {:induction false} SplitConcat(p: string, s: string)
    ensures Split(p + "." + s) == Split(p) + Split(s)
    decreases |p|
  {
    var whole := p + "." + s;
    if p == "" {
      assert whole[1..] == s;
    } else {
      var rest := Split(p[1..]);
      SplitConcat(p[1..], s);
      assert whole[0] == p[0] && whole[1..] == p[1..] + "." + s;
      assert Split(whole[1..]) == rest + Split(s);
      if p[0] == '.' {
        assert [""] + (rest + Split(s)) == ([""] + rest) + Split(s);
      }
    }
  }

  lemma {:induction false} SplitSingle(l: Label)
    requires '.' !in l
    ensures Split(l) == [l]
    decreases |l|
  {
    if l != "" {
      SplitSingle(l[1..]);
      assert l == [l[0]] + l[1..];
    }
  }

  /** Splitting undoes joining for any non-empty list of dot-free labels. */
  lemma {:induction false} SplitJoin(labels: seq<Label>)
    requires labels != [] && DotFree(labels)
    ensures Split(Join(labels)) == labels
    decreases |labels|
  {
    if |labels| == 1 {
      SplitSingle(labels[0]);
    } else {
      SplitJoin(labels[1..]);
      SplitSingle(labels[0]);
      SplitConcat(labels[0], Join(labels[1..]));
      assert labels == [labels[0]] + labels[1..];
    }
  }

  lemma {:induction false} JoinAppend(a: seq<Label>, b: seq<Label>)
    requires a != [] && b != []
    ensures Join(a + b) == Join(a) + "." + Join(b)
    decreases |a|
  {
    if |a| == 1 {
      assert (a + b)[1..] == b;
    } else {
      JoinAppend(a[1..], b);
      assert (a + b)[1..] == a[1..] + b;
    }
  }

  /** Text with a dot appended starts another text iff the labels are a strict prefix. */
  lemma {:induction false} StartsWithIsLabelPrefix(p: string, q: string)
    ensures p + "." <= q <==> Split(p) < Split(q)
  {
    var a, b := Split(p), Split(q);
    JoinSplit(p);
    JoinSplit(q);
    if a < b {
      JoinAppend(a, b[|a|..]);
      assert b == a + b[|a|..];
    }
    if p + "." <= q {
      var s := q[|p| + 1..];
      assert q == p + "." + s;
      SplitConcat(p, s);
    }
  }

  /** `CONCAT(new, SUBSTRING(path FROM len(old) + 1))`. */
  function PrefixReplace(path: string, oldPrefix: string, newPrefix: string): string {
    newPrefix + (if |oldPrefix| <= |path| then path[|oldPrefix|..] else "")
  }

  /** A text whose labels start with those of `p` is `p`, or `p` followed by a dot and the others. */
  lemma BelowPrefix(p: string, s: string)
    requires Split(p) <= Split(s)
    ensures Split(p) == Split(s) ==> s == p
    ensures Split(p) != Split(s) ==> s == p + ("." + Join(Split(s)[|Split(p)|..]))
  {
    JoinSplit(p);
    JoinSplit(s);
    if Split(p) != Split(s) {
      JoinFrom(Split(p), Split(s));
    }
  }

  lemma JoinFrom(a: seq<Label>, b: seq<Label>)
    requires a != [] && a < b
    ensures Join(b) == Join(a) + ("." + Join(b[|a|..]))
  {
    assert b == a + b[|a|..];
    JoinAppend(a, b[|a|..]);
    assert Join(a) + "." + Join(b[|a|..]) == Join(a) + ("." + Join(b[|a|..]));
  }

  lemma SplitAfter(p: string, labels: seq<Label>)
    requires labels != [] && DotFree(labels)
    ensures Split(p + ("." + Join(labels))) == Split(p) + labels
  {
    SplitConcat(p, Join(labels));
    SplitJoin(labels);
    assert p + ("." + Join(labels)) == p + "." + Join(labels);
  }

  /**
   On a path below `oldPrefix` the character rewrite replaces exactly the leading labels;
   later occurrences of the same labels stay.
   */
  lemma PrefixReplaceIsLabelReplace(path: string, oldPrefix: string, newPrefix: string)
    requires Split(oldPrefix) <= Split(path)
    ensures Split(PrefixReplace(path, oldPrefix, newPrefix)) == Split(newPrefix) + Split(path)[|Split(oldPrefix)|..]
  {
    BelowPrefix(oldPrefix, path);
    var rest := Split(path)[|Split(oldPrefix)|..];
    if rest == [] {
      assert Split(oldPrefix) == Split(path);
      assert path[|oldPrefix|..] == "";
      assert PrefixReplace(path, oldPrefix, newPrefix) == newPrefix;
    } else {
      assert path[|oldPrefix|..] == "." + Join(rest);
      SplitDotFree(path);
      SplitAfter(newPrefix, rest);
    }
  }

  // ---------- the field, with any separator ----------

  datatype FieldError = TooLong(path: string) | EmptySeparator

  /** `to_db_value`: joins a label list and refuses text over the length limit; 0 is no limit. */
  function ToDb(labels: seq<Label>, separator: string, maxLength: nat): Result<string, FieldError> {
    var path := JoinWith(separator, labels);
    if maxLength != 0 && |path| > maxLength then Err(TooLong(path)) else Ok(path)
  }

  /** `str.split(separator)`: the text is scanned from the left. */
  function SplitBy(separator: string, s: string): (r: seq<Label>)
    requires separator != ""
    ensures |r| >= 1
    decreases |s|
  {
    if s == "" then [""]
    else if separator <= s then [""] + SplitBy(separator, s[|separator|..])
    else Grow(s[0], SplitBy(separator, s[1..]))
  }

  /** `to_python_value`; an empty separator is an error of `split`. */
  function ToPython(s: string, separator: string): Result<seq<Label>, FieldError> {
    if separator == "" then Err(EmptySeparator) else Ok(SplitBy(separator, s))
  }

  /** Splitting a path is splitting by a dot. */
  lemma {:induction false} SplitIsSplitBy(s: string)
    ensures SplitBy(".", s) == Split(s)
    decreases |s|
  {
    if s != "" {
      assert "." <= s <==> s[0] == '.';
      SplitIsSplitBy(s[1..]);
    }
  }

  /** The separator does not begin in the first `n` places of the text. */
  ghost predicate NotBefore(separator: string, s: string, n: nat)
    requires n <= |s|
  {
    forall j :: 0 <= j < n ==> !(separator <= s[j..])
  }

  /**
   The first component ends where the separator first begins; the others are those of the
   text after it.
   */
  lemma {:induction false} SplitHead(separator: string, s: string)
    requires separator != ""
    ensures var r := SplitBy(separator, s); |r[0]| <= |s| && r[0] == s[..|r[0]|] && NotBefore(separator, s, |r[0]|)
    ensures var r := SplitBy(separator, s); |r| == 1 ==> r[0] == s
    ensures var r := SplitBy(separator, s); var n := |r[0]|; |r| > 1 ==>
      separator <= s[n..] && r[1..] == SplitBy(separator, s[n..][|separator|..])
    decreases |s|
  {
    if s != "" && !(separator <= s) {
      SplitHead(separator, s[1..]);
      var r, q := SplitBy(separator, s), SplitBy(separator, s[1..]);
      var n := |q[0]|;
      assert s == [s[0]] + s[1..];
      assert r[0] == [s[0]] + q[0] && |r[0]| == n + 1 && r[1..] == q[1..];
      assert s[n + 1..] == s[1..][n..];
      forall j | 0 <= j < n + 1 ensures !(separator <= s[j..]) {
        if j > 0 {
          assert s[j..] == s[1..][j - 1..];
        } else {
          assert s[0..] == s;
        }
      }
    } else if s != "" {
      assert s[0..] == s;
    }
  }

  /** Joining undoes splitting, whatever the separator. */
  lemma {:induction false} JoinSplitBy(separator: string, s: string)
    requires separator != ""
    ensures JoinWith(separator, SplitBy(separator, s)) == s
    decreases |s|
  {
    SplitHead(separator, s);
    var r := SplitBy(separator, s);
    if |r| > 1 {
      var n := |r[0]|;
      var rest := s[n..][|separator|..];
      assert s == r[0] + separator + rest;
      JoinSplitBy(separator, rest);
    }
  }

  /**
   No label holds the separator, and none of a label's own characters together with the
   separator behind it make an earlier one.
   */
  ghost predicate Separable(separator: string, labels: seq<Label>) {
    && labels != []
    && (forall i :: 0 <= i < |labels| - 1 ==> NotBefore(separator, labels[i] + separator, |labels[i]|))
    && NotBefore(separator, labels[|labels| - 1], |labels[|labels| - 1]|)
  }

  /** What follows a separator does not decide whether one begins before it. */
  lemma EarlierInFront(separator: string, l: string, rest: string)
    ensures NotBefore(separator, l + separator + rest, |l|) <==> NotBefore(separator, l + separator, |l|)
    ensures (l + separator + rest)[|l|..] == separator + rest
  {
    forall j | 0 <= j < |l| ensures separator <= (l + separator + rest)[j..] <==> separator <= (l + separator)[j..] {
      assert (l + separator + rest)[j..] == (l + separator)[j..] + rest;
    }
  }

  /** A label in front of a separator is the first component iff no earlier separator begins. */
  lemma HeadComponent(separator: string, l: string, rest: string)
    requires separator != ""
    ensures SplitBy(separator, l + separator + rest)[0] == l <==> NotBefore(separator, l + separator, |l|)
    ensures SplitBy(separator, l + separator + rest)[0] == l ==>
      SplitBy(separator, l + separator + rest) == [l] + SplitBy(separator, rest)
  {
    EarlierInFront(separator, l, rest);
    assert l + separator + rest == l + (separator + rest);
    HeadAt(separator, l + separator + rest, l, rest);
  }

  lemma HeadAt(separator: string, s: string, l: string, rest: string)
    requires separator != "" && |l| <= |s| && s[..|l|] == l && s[|l|..] == separator + rest
    ensures SplitBy(separator, s)[0] == l <==> NotBefore(separator, s, |l|)
    ensures SplitBy(separator, s)[0] == l ==> SplitBy(separator, s) == [l] + SplitBy(separator, rest)
  {
    var r := SplitBy(separator, s);
    SplitHead(separator, s);
    assert separator <= s[|l|..] && |l| < |s|;
    if NotBefore(separator, s, |l|) {
      assert |r[0]| <= |l| && |r| > 1;
      assert |r[0]| >= |l|;
    }
    if r[0] == l {
      assert |r| > 1 && s[|l|..][|separator|..] == rest;
      assert r == [l] + r[1..];
    }
  }

  /** Splitting undoes joining exactly for separable lists, whatever the separator. */
  lemma {:induction false} SplitByUndoesJoinIff(separator: string, labels: seq<Label>)
    requires separator != ""
    ensures SplitBy(separator, JoinWith(separator, labels)) == labels <==> Separable(separator, labels)
    decreases |labels|
  {
    var s := JoinWith(separator, labels);
    if |labels| == 1 {
      SplitHead(separator, s);
      SingleComponent(separator, s);
    } else if |labels| > 1 {
      var l, rest := labels[0], labels[1..];
      assert labels == [l] + rest;
      HeadComponent(separator, l, JoinWith(separator, rest));
      SplitByUndoesJoinIff(separator, rest);
      SeparableCons(separator, l, rest);
      if SplitBy(separator, s) == labels {
        assert SplitBy(separator, s)[1..] == rest;
      }
    }
  }

  lemma SingleComponent(separator: string, s: string)
    requires separator != ""
    ensures SplitBy(separator, s) == [s] <==> NotBefore(separator, s, |s|)
  {
    SplitHead(separator, s);
    var r := SplitBy(separator, s);
    if |r| > 1 {
      assert separator <= s[|r[0]|..] && |r[0]| < |s|;
    }
  }

  lemma SeparableCons(separator: string, l: Label, rest: seq<Label>)
    requires rest != []
    ensures Separable(separator, [l] + rest) <==> NotBefore(separator, l + separator, |l|) && Separable(separator, rest)
  {
    var labels := [l] + rest;
    assert labels[|labels| - 1] == rest[|rest| - 1];
    forall i | 0 <= i < |labels| - 1 ensures labels[i] == if i == 0 then l else rest[i - 1] {
    }
    if Separable(separator, labels) {
      forall i | 0 <= i < |rest| - 1 ensures NotBefore(separator, rest[i] + separator, |rest[i]|) {
        assert labels[i + 1] == rest[i];
      }
      assert labels[0] == l;
    }
  }

  /** For a separator of one character: no label contains it. */
  lemma SeparableByChar(c: char, labels: seq<Label>)
    ensures Separable([c], labels) <==> labels != [] && forall i :: 0 <= i < |labels| ==> c !in labels[i]
  {
    forall i | 0 <= i < |labels|
      ensures NotBefore([c], labels[i] + [c], |labels[i]|) <==> c !in labels[i]
      ensures NotBefore([c], labels[i], |labels[i]|) <==> c !in labels[i]
    {
      var l := labels[i];
      forall j | 0 <= j < |l|
        ensures [c] <= (l + [c])[j..] <==> l[j] == c
        ensures [c] <= l[j..] <==> l[j] == c
      {
        assert (l + [c])[j..][0] == l[j] && l[j..][0] == l[j];
      }
    }
  }

  /**
   A label list is stored iff its text fits, and what is stored reads back as the same list
   iff the list is separable.
   */
  lemma LabelRoundTrip(labels: seq<Label>, separator: string, maxLength: nat)
    ensures ToDb(labels, separator, maxLength).Ok? <==> (maxLength == 0 || |JoinWith(separator, labels)| <= maxLength)
    ensures ToDb(labels, separator, maxLength).Ok? ==>
      (ToPython(ToDb(labels, separator, maxLength).value, separator) == Ok(labels)
       <==> separator != "" && Separable(separator, labels))
  {
    if separator != "" {
      SplitByUndoesJoinIff(separator, labels);
    }
  }
}
