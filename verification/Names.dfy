/** Domain names as label sequences and their canonical order
    (section 6.1 of RFC 4034), after `dname_compare`, `label_compare`,
    `dname_is_subdomain` and `dname_label_match_count`.

    A `Name` lists its labels from the top-level label downwards, without the
    root label, which is how `dname_label(d, 1)`, `dname_label(d, 2)`, ...
    enumerate them.  The root is `[]`; `label_count` is `|name| + 1`. */
module Names {

  type Byte = b: int | 0 <= b < 0x100

  type Label = seq<Byte>

  type Name = seq<Label>

  /** The length of the longest common prefix. */
  ghost function Match<T>(a: seq<T>, b: seq<T>): (m: nat)
    ensures m <= |a| && m <= |b|
    ensures forall i :: 0 <= i < m ==> a[i] == b[i]
    ensures m < |a| && m < |b| ==> a[m] != b[m]
  {
    if a == [] || b == [] || a[0] != b[0] then 0
    else
      var rest := Match(a[1..], b[1..]);
      assert forall i :: 1 <= i < rest + 1 ==> a[i] == a[1..][i - 1] && b[i] == b[1..][i - 1];
      rest + 1
  }

  /** Labels compare byte by byte, a proper prefix first. */
  ghost predicate LabelLess(a: Label, b: Label) {
    var m := Match(a, b);
    if m == |a| || m == |b| then |a| < |b| else a[m] < b[m]
  }

  /** Names compare label by label from the top, a proper ancestor first. */
  ghost predicate Less(a: Name, b: Name) {
    var m := Match(a, b);
    if m == |a| || m == |b| then |a| < |b| else LabelLess(a[m], b[m])
  }

  ghost predicate LessEq(a: Name, b: Name) {
    a == b || Less(a, b)
  }

  /** `n` is `top` or lies below it. */
  predicate IsSubdomain(n: Name, top: Name) {
    top <= n
  }

  function Parent(n: Name): Name
    requires n != []
  {
    n[..|n| - 1]
  }

  // ----- the longest common prefix is what it should be

  lemma MatchIs<T>(a: seq<T>, b: seq<T>, m: nat)
    requires m <= |a| && m <= |b|
    requires forall i :: 0 <= i < m ==> a[i] == b[i]
    requires m < |a| && m < |b| ==> a[m] != b[m]
    ensures Match(a, b) == m
  {
  }

  lemma MatchFull<T>(a: seq<T>, b: seq<T>)
    requires Match(a, b) == |a|
    ensures a <= b
  {
  }

  // ----- labels are totally ordered

  lemma LabelTotal(a: Label, b: Label)
    ensures LabelLess(a, b) || a == b || LabelLess(b, a)
    ensures !(LabelLess(a, b) && LabelLess(b, a))
    ensures !LabelLess(a, a)
  {
    MatchIs(b, a, Match(a, b));
    MatchIs(a, a, |a|);
    if Match(a, b) == |a| == |b| {
      assert a == b;
    }
  }

  lemma LabelTransitive(a: Label, b: Label, c: Label)
    requires LabelLess(a, b) && LabelLess(b, c)
    ensures LabelLess(a, c)
  {
    var m, n := Match(a, b), Match(b, c);
    if m < n {
      MatchIs(a, c, m);
    } else if n < m {
      MatchIs(a, c, n);
    } else {
      MatchIs(a, c, m);
    }
  }

  /** Bytes order labels by value, and a proper prefix comes first. */
  lemma LabelOrder(p: Label, x: Byte, s: Label, y: Byte, t: Label)
    ensures x != y ==> (LabelLess(p + [x] + s, p + [y] + t) <==> x < y)
    ensures LabelLess(p, p + [x] + s) && !LabelLess(p + [x] + s, p)
  {
    var a, b := p + [x] + s, p + [y] + t;
    if x != y {
      MatchIs(a, b, |p|);
    }
    MatchIs(p, a, |p|);
    MatchIs(a, p, |p|);
  }

  // ----- names are totally ordered

  lemma Total(a: Name, b: Name)
    ensures Less(a, b) || a == b || Less(b, a)
    ensures !(Less(a, b) && Less(b, a))
    ensures !Less(a, a)
  {
    var m := Match(a, b);
    MatchIs(b, a, m);
    MatchIs(a, a, |a|);
    if m < |a| && m < |b| {
      LabelTotal(a[m], b[m]);
    }
    if m == |a| == |b| {
      assert a == b;
    }
  }

  lemma Transitive(a: Name, b: Name, c: Name)
    requires Less(a, b) && Less(b, c)
    ensures Less(a, c)
  {
    var m, n := Match(a, b), Match(b, c);
    if m < n {
      MatchIs(a, c, m);
    } else if n < m {
      MatchIs(a, c, n);
    } else if m < |a| && m < |c| {
      assert m < |b|;
      LabelTransitive(a[m], b[m], c[m]);
      LabelTotal(a[m], c[m]);
      MatchIs(a, c, m);
    } else {
      MatchIs(a, c, m);
    }
  }

  /** The canonical order of section 6.1 of RFC 4034: with the same labels above,
      the first byte that differs decides, or else the shorter label is first,
      whatever lies below. */
  lemma NameOrder(above: Name, p: Label, x: Byte, s: Label, y: Byte, t: Label, low: Name, high: Name)
    ensures x != y ==> (Less(above + [p + [x] + s] + low, above + [p + [y] + t] + high) <==> x < y)
    ensures Less(above + [p] + low, above + [p + [x] + s] + high) && !Less(above + [p + [x] + s] + high, above + [p] + low)
    ensures Less(above, above + [p] + low) && !Less(above + [p] + low, above)
  {
    LabelOrder(p, x, s, y, t);
    var short, one, other: Label := p, p + [x] + s, p + [y] + t;
    if x != y {
      assert one[|p|] == x && other[|p|] == y;
      DecidedAt(above, one, low, other, high);
    }
    assert |one| > |p|;
    DecidedAt(above, short, low, one, high);
    MatchIs(above, above + [p] + low, |above|);
    MatchIs(above + [p] + low, above, |above|);
  }

  lemma DecidedAt(above: Name, a: Label, low: Name, b: Label, high: Name)
    requires a != b
    ensures Less(above + [a] + low, above + [b] + high) <==> LabelLess(a, b)
    ensures Less(above + [b] + high, above + [a] + low) <==> LabelLess(b, a)
  {
    var m, n := above + [a] + low, above + [b] + high;
    assert m[|above|] == a && n[|above|] == b;
    MatchIs(m, n, |above|);
    MatchIs(n, m, |above|);
  }

  // ----- the subdomains of a name form one contiguous block right after it

  lemma BelowIsAfter(n: Name, top: Name)
    requires IsSubdomain(n, top)
    ensures LessEq(top, n)
  {
    MatchIs(top, n, |top|);
    if |top| == |n| {
      assert top == n;
    }
  }

  lemma Contiguous(top: Name, x: Name, n: Name)
    requires LessEq(top, x) && LessEq(x, n)
    requires IsSubdomain(n, top)
    ensures IsSubdomain(x, top)
  {
    if x != top && x != n {
      var m, k := Match(top, x), Match(x, n);
      if m < |top| {
        LabelTotal(top[m], x[m]);
        assert false;
      }
      MatchFull(top, x);
    }
  }

  // ----- the comparison loops

  /** `label_compare`: negative, zero or positive as in `memcmp`. */
  method CompareLabels(a: Label, b: Label) returns (r: int)
    ensures r < 0 <==> LabelLess(a, b)
    ensures r == 0 <==> a == b
    ensures r > 0 <==> LabelLess(b, a)
  {
    LabelTotal(a, b);
    var size := if |a| < |b| then |a| else |b|;
    var i := 0;
    while i < size
      invariant 0 <= i <= size
      invariant forall k :: 0 <= k < i ==> a[k] == b[k]
    {
      if a[i] != b[i] {
        MatchIs(a, b, i);
        return (a[i] as int) - (b[i] as int);
      }
      i := i + 1;
    }
    MatchIs(a, b, i);
    r := |a| - |b|;
    if |a| == |b| {
      assert a == b;
    }
  }

  /** `dname_compare`: label by label from the top, then fewest labels first. */
  method Compare(left: Name, right: Name) returns (r: int)
    ensures r < 0 <==> Less(left, right)
    ensures r == 0 <==> left == right
    ensures r > 0 <==> Less(right, left)
  {
    Total(left, right);
    var count := if |left| <= |right| then |left| else |right|;
    var i := 0;
    while i < count
      invariant 0 <= i <= count
      invariant forall k :: 0 <= k < i ==> left[k] == right[k]
    {
      r := CompareLabels(left[i], right[i]);
      if r != 0 {
        MatchIs(left, right, i);
        MatchIs(right, left, i);
        return;
      }
      i := i + 1;
    }
    MatchIs(left, right, i);
    r := |left| - |right|;
    if |left| == |right| {
      assert left == right;
    }
  }

  /** `dname_is_subdomain`. */
  method TestSubdomain(left: Name, right: Name) returns (yes: bool)
    ensures yes <==> IsSubdomain(left, right)
  {
    if |left| < |right| {
      return false;
    }
    var i := 0;
    while i < |right|
      invariant 0 <= i <= |right|
      invariant forall k :: 0 <= k < i ==> left[k] == right[k]
    {
      var c := CompareLabels(left[i], right[i]);
      if c != 0 {
        return false;
      }
      i := i + 1;
    }
    return true;
  }

  /** `dname_label_match_count`, which also counts the root label. */
  method LabelMatchCount(left: Name, right: Name) returns (n: nat)
    ensures n == Match(left, right) + 1
  {
    var i := 0;
    while i < |left| && i < |right|
      invariant 0 <= i <= |left| && i <= |right|
      invariant forall k :: 0 <= k < i ==> left[k] == right[k]
    {
      var c := CompareLabels(left[i], right[i]);
      if c != 0 {
        MatchIs(left, right, i);
        return i + 1;
      }
      i := i + 1;
    }
    MatchIs(left, right, i);
    return i + 1;
  }
}
