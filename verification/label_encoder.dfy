/** The label encoder applied to each categorical column: fitting keeps the
    distinct values of the column in sorted order (its classes), and a value
    is encoded as its position among them.
 */
module LabelEncoder {
  import opened StringOrder

  predicate StrictlySorted(s: seq<string>) {
    forall i, j :: 0 <= i < j < |s| ==> Less(s[i], s[j])
  }

  predicate Distinct(s: seq<string>) {
    forall i, j :: 0 <= i < j < |s| ==> s[i] != s[j]
  }

  function Elements(s: seq<string>): set<string> {
    set x | x in s
  }

  /** Adds `x` to a sorted list of distinct values, keeping it sorted and
      adding nothing when `x` is already there. */
  function Insert(s: seq<string>, x: string): (r: seq<string>)
    requires StrictlySorted(s)
    ensures StrictlySorted(r)
    ensures Elements(r) == Elements(s) + {x}
  {
    if |s| == 0 then [x]
    else if x == s[0] then
      assert x in Elements(s);
      s
    else if Less(x, s[0]) then
      InsertFront(s, x);
      [x] + s
    else
      var rest := Insert(s[1..], x);
      InsertBehind(s, x, rest);
      [s[0]] + rest
  }

  lemma InsertFront(s: seq<string>, x: string)
    requires StrictlySorted(s) && |s| > 0 && Less(x, s[0])
    ensures StrictlySorted([x] + s) && Elements([x] + s) == Elements(s) + {x}
  {
    forall j | 0 < j < |s| ensures Less(x, s[j]) {
      LessTransitive(x, s[0], s[j]);
    }
  }

  /** `x` belongs after the head of `s`, and `rest` is `x` inserted into the
      tail of `s`. */
  lemma InsertBehind(s: seq<string>, x: string, rest: seq<string>)
    requires StrictlySorted(s) && |s| > 0 && x != s[0] && !Less(x, s[0])
    requires StrictlySorted(rest) && Elements(rest) == Elements(s[1..]) + {x}
    ensures StrictlySorted([s[0]] + rest) && Elements([s[0]] + rest) == Elements(s) + {x}
  {
    assert Elements(s) == {s[0]} + Elements(s[1..]) by {
      assert s == [s[0]] + s[1..];
    }
    LessTotal(x, s[0]);
    forall k | 0 <= k < |rest| ensures Less(s[0], rest[k]) {
      assert rest[k] in Elements(rest);
      if rest[k] != x {
        var j :| 0 <= j < |s[1..]| && s[1..][j] == rest[k];
        assert s[j + 1] == rest[k];
      }
    }
    assert Elements([s[0]] + rest) == {s[0]} + Elements(rest);
  }

  /** The fitted classes of a column: its distinct values, sorted. */
  function Classes(col: seq<string>): (classes: seq<string>)
    ensures StrictlySorted(classes)
    ensures Elements(classes) == Elements(col)
  {
    if |col| == 0 then []
    else
      var n := |col| - 1;
      assert Elements(col) == Elements(col[..n]) + {col[n]} by {
        assert col == col[..n] + [col[n]];
      }
      Insert(Classes(col[..n]), col[n])
  }

  /** The position of `v` in `classes`: its code. */
  function CodeOf(classes: seq<string>, v: string): (code: nat)
    requires v in classes
    ensures code < |classes| && classes[code] == v
  {
    if classes[0] == v then 0 else 1 + CodeOf(classes[1..], v)
  }

  lemma SortedIsDistinct(s: seq<string>)
    requires StrictlySorted(s)
    ensures Distinct(s)
  {
    forall i, j | 0 <= i < j < |s| ensures s[i] != s[j] {
      LessIrreflexive(s[i]);
    }
  }

  /** A list without repeats has as many elements as distinct values. */
  lemma {:induction false} DistinctCardinality(s: seq<string>)
    requires Distinct(s)
    ensures |Elements(s)| == |s|
  {
    if |s| > 0 {
      DistinctCardinality(s[1..]);
      assert Elements(s) == {s[0]} + Elements(s[1..]) by {
        assert s == [s[0]] + s[1..];
      }
      assert s[0] !in Elements(s[1..]);
    }
  }

  /** The number of classes is the number of distinct values in the column. */
  lemma ClassCount(col: seq<string>)
    ensures |Classes(col)| == |Elements(col)|
  {
    SortedIsDistinct(Classes(col));
    DistinctCardinality(Classes(col));
  }

  /** A sorted list of distinct values is determined by its set of values;
      so the fitted classes depend only on which values a column holds. */
  lemma {:induction false} SortedUnique(a: seq<string>, b: seq<string>)
    requires StrictlySorted(a) && StrictlySorted(b) && Elements(a) == Elements(b)
    ensures a == b
    decreases |a|
  {
    assert |b| == 0 || b[0] in Elements(b);
    if |a| > 0 {
      assert a[0] in Elements(b);
      assert |b| > 0;
      assert b[0] in Elements(a);
      var k :| 0 <= k < |a| && a[k] == b[0];
      var m :| 0 <= m < |b| && b[m] == a[0];
      if k > 0 && m > 0 {
        assert Less(a[0], b[0]) && Less(b[0], a[0]);
        LessAsymmetric(a[0], b[0]);
      }
      assert a[0] == b[0];
      SortedIsDistinct(a);
      SortedIsDistinct(b);
      assert Elements(a[1..]) == Elements(b[1..]) by {
        assert a == [a[0]] + a[1..] && b == [b[0]] + b[1..];
        assert Elements(a) == {a[0]} + Elements(a[1..]);
        assert Elements(b) == {b[0]} + Elements(b[1..]);
        assert a[0] !in Elements(a[1..]);
        assert b[0] !in Elements(b[1..]);
      }
      SortedUnique(a[1..], b[1..]);
      assert a == [a[0]] + a[1..] && b == [b[0]] + b[1..];
    }
  }

  /** Decoding a code and encoding the value again gives the same code. */
  lemma CodeOfDecoded(classes: seq<string>, code: nat)
    requires Distinct(classes) && code < |classes|
    ensures CodeOf(classes, classes[code]) == code
  {
  }

  /** Codes follow the sorted order of the values they encode. */
  lemma CodeOrder(classes: seq<string>, u: string, v: string)
    requires StrictlySorted(classes) && u in classes && v in classes
    ensures Less(u, v) <==> CodeOf(classes, u) < CodeOf(classes, v)
  {
    var cu, cv := CodeOf(classes, u), CodeOf(classes, v);
    if cu < cv {
      assert Less(classes[cu], classes[cv]);
    } else if cv < cu {
      assert Less(classes[cv], classes[cu]);
      LessAsymmetric(v, u);
    } else {
      LessIrreflexive(u);
    }
  }

  lemma ValuesAreClasses(col: seq<string>)
    ensures forall i :: 0 <= i < |col| ==> col[i] in Classes(col)
  {
    forall i | 0 <= i < |col| ensures col[i] in Classes(col) {
      assert col[i] in Elements(col);
    }
  }

  /** `fit_transform` on one column: every value replaced by its code in the
      column's own classes. */
  function EncodeColumn(col: seq<string>): (codes: seq<nat>)
    ensures |codes| == |col|
    ensures forall i :: 0 <= i < |col| ==> codes[i] < |Elements(col)|
    ensures forall i :: 0 <= i < |col| ==> codes[i] < |Classes(col)| && Classes(col)[codes[i]] == col[i]
  {
    var classes := Classes(col);
    ClassCount(col);
    ValuesAreClasses(col);
    var codes := seq(|col|, i requires 0 <= i < |col| => CodeOf(classes, col[i]));
    assert forall i :: 0 <= i < |col| ==> codes[i] < |classes| && classes[codes[i]] == col[i] by {
      forall i | 0 <= i < |col| ensures codes[i] < |classes| && classes[codes[i]] == col[i] {
        assert codes[i] == CodeOf(classes, col[i]);
      }
    }
    codes
  }

  lemma EncodeColumnAt(col: seq<string>, i: nat)
    requires i < |col|
    ensures col[i] in Classes(col) && EncodeColumn(col)[i] == CodeOf(Classes(col), col[i])
  {
    ValuesAreClasses(col);
  }

  /** Equal values get equal codes and distinct values distinct codes, and
      the codes follow the sorted order of the values. */
  lemma EncodeColumnFaithful(col: seq<string>, i: nat, j: nat)
    requires i < |col| && j < |col|
    ensures EncodeColumn(col)[i] == EncodeColumn(col)[j] <==> col[i] == col[j]
    ensures EncodeColumn(col)[i] < EncodeColumn(col)[j] <==> Less(col[i], col[j])
  {
    var classes := Classes(col);
    ValuesAreClasses(col);
    assert EncodeColumn(col)[i] == CodeOf(classes, col[i]);
    assert EncodeColumn(col)[j] == CodeOf(classes, col[j]);
    CodeOrder(classes, col[i], col[j]);
  }
}
