/** What the other modules share about sequences, sets and optional values. */
module Sequences {

  datatype Option<+T> = None | Some(value: T)

  lemma AMember<T>(s: set<T>) returns (x: T)
    requires s != {}
    ensures x in s
  {
    x :| x in s;
  }

  ghost function Elements<T>(s: seq<T>): set<T> {
    set x | x in s
  }

  // ----- sequences without repetition

  ghost predicate Distinct<T>(s: seq<T>) {
    forall i, j :: 0 <= i < j < |s| ==> s[i] != s[j]
  }

  lemma DistinctConcat<T>(a: seq<T>, b: seq<T>)
    requires Distinct(a) && Distinct(b)
    requires forall x :: x in a ==> x !in b
    ensures Distinct(a + b)
  {
    var c := a + b;
    forall i, j | 0 <= i < j < |c|
      ensures c[i] != c[j]
    {
      if i < |a| <= j {
        assert c[i] in a && c[j] in b;
      }
    }
  }

  lemma {:induction false} DistinctSize<T>(s: seq<T>)
    requires Distinct(s)
    ensures |Elements(s)| == |s|
  {
    if s != [] {
      DistinctSize(s[1..]);
      assert Elements(s) == {s[0]} + Elements(s[1..]);
    }
  }

  // ----- a sequence cut into parts

  function Flatten<T>(parts: seq<seq<T>>): seq<T> {
    if parts == [] then [] else parts[0] + Flatten(parts[1..])
  }

  lemma {:induction false} FlattenNonEmpty<T>(parts: seq<seq<T>>)
    requires parts != [] && parts[|parts| - 1] != []
    ensures Flatten(parts) != []
  {
    if |parts| > 1 {
      FlattenNonEmpty(parts[1..]);
    }
  }

  lemma {:induction false} FlattenSnoc<T>(a: seq<seq<T>>, b: seq<T>)
    ensures Flatten(a + [b]) == Flatten(a) + b
  {
    if a == [] {
      assert a + [b] == [b] && [b][1..] == [];
    } else {
      assert (a + [b])[1..] == a[1..] + [b];
      FlattenSnoc(a[1..], b);
    }
  }

  lemma {:induction false} FlattenPrefix<T>(parts: seq<seq<T>>, j: nat)
    requires j <= |parts|
    ensures |Flatten(parts[..j])| <= |Flatten(parts)| && Flatten(parts[..j]) == Flatten(parts)[..|Flatten(parts[..j])|]
    decreases j
  {
    if j > 0 {
      FlattenPrefix(parts[1..], j - 1);
      assert parts[..j][0] == parts[0] && parts[..j][1..] == parts[1..][..j - 1];
    }
  }

  lemma FlattenSplit<T>(s: seq<T>, i: nat)
    requires i <= |s|
    ensures Flatten([s[..i], s[i..]]) == s
  {
    var parts := [s[..i], s[i..]];
    assert parts[1..][0] == s[i..] && parts[1..][1..] == [];
    assert Flatten(parts[1..]) == s[i..] + Flatten(parts[1..][1..]) == s[i..];
  }
}
