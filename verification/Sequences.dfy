/** Go's strings.Split, strings.SplitN(_, _, 2), strings.Join and strings.Contains for a
    one-element separator, over any element type, and the algebra that relates them. */
module Sequences {

  datatype Option<+T> = None | Some(value: T)

  datatype Result<+T, +E> = Ok(value: T) | Err(error: E)

  /** The separator of role lists and of issuer entries. */
  const COMMA := ','

  function Split<T(==)>(s: seq<T>, sep: T): (parts: seq<seq<T>>)
    ensures |parts| >= 1
  {
    if s == [] then [[]]
    else
      var rest := Split(s[1..], sep);
      if s[0] == sep then [[]] + rest else [[s[0]] + rest[0]] + rest[1..]
  }

  /** strings.SplitN(s, sep, 2): at most one cut, at the first separator. */
  function Cut<T(==)>(s: seq<T>, sep: T): (parts: seq<seq<T>>)
    ensures |parts| == if sep in s then 2 else 1
  {
    if s == [] then [[]]
    else if s[0] == sep then [[], s[1..]]
    else
      var rest := Cut(s[1..], sep);
      [[s[0]] + rest[0]] + rest[1..]
  }

  function Join<T>(parts: seq<seq<T>>, sep: T): seq<T> {
    if |parts| == 0 then []
    else if |parts| == 1 then parts[0]
    else parts[0] + [sep] + Join(parts[1..], sep)
  }

  function Flatten<T>(parts: seq<seq<T>>): seq<T> {
    if parts == [] then [] else parts[0] + Flatten(parts[1..])
  }

  function SplitEach<T(==)>(values: seq<seq<T>>, sep: T): seq<seq<T>> {
    if values == [] then [] else Split(values[0], sep) + SplitEach(values[1..], sep)
  }

  predicate OccursAt<T(==)>(s: seq<T>, sub: seq<T>, i: int) {
    0 <= i <= |s| - |sub| && s[i..i + |sub|] == sub
  }

  predicate Contains<T(==)>(s: seq<T>, sub: seq<T>) {
    exists i | 0 <= i <= |s| - |sub| :: OccursAt(s, sub, i)
  }

  lemma {:induction false} SplitAtSeparator<T>(a: seq<T>, sep: T, b: seq<T>)
    ensures Split(a + [sep] + b, sep) == Split(a, sep) + Split(b, sep)
  {
    var whole := a + [sep] + b;
    if a == [] {
      assert whole[1..] == b;
    } else {
      assert whole[1..] == a[1..] + [sep] + b;
      SplitAtSeparator(a[1..], sep, b);
    }
  }

  lemma {:induction false} SplitWithoutSeparator<T>(s: seq<T>, sep: T)
    requires sep !in s
    ensures Split(s, sep) == [s]
  {
    if s != [] {
      assert s == [s[0]] + s[1..];
      SplitWithoutSeparator(s[1..], sep);
    }
  }

  /** Joining the parts gives the string back, and no part holds a separator. */
  lemma {:induction false} SplitSound<T>(s: seq<T>, sep: T)
    ensures Join(Split(s, sep), sep) == s
    ensures forall part :: part in Split(s, sep) ==> sep !in part
  {
    if s != [] {
      var rest := Split(s[1..], sep);
      SplitSound(s[1..], sep);
      if s[0] != sep {
        var parts := [[s[0]] + rest[0]] + rest[1..];
        assert parts[1..] == rest[1..];
        assert Join(parts, sep) == [s[0]] + Join(rest, sep);
      }
    }
  }

  /** Split after Join splits every value on its own. */
  lemma {:induction false} SplitOfJoin<T>(values: seq<seq<T>>, sep: T)
    requires values != []
    ensures Split(Join(values, sep), sep) == SplitEach(values, sep)
  {
    if |values| == 1 {
      assert SplitEach(values[1..], sep) == [];
    } else {
      SplitOfJoin(values[1..], sep);
      SplitAtSeparator(values[0], sep, Join(values[1..], sep));
    }
  }

  lemma {:induction false} SplitEachWithoutSeparator<T>(values: seq<seq<T>>, sep: T)
    requires forall v :: v in values ==> sep !in v
    ensures SplitEach(values, sep) == values
  {
    if values != [] {
      SplitWithoutSeparator(values[0], sep);
      SplitEachWithoutSeparator(values[1..], sep);
    }
  }

  /** Split is the one way to write s as separator-free parts: any such list is the result. */
  lemma SplitUnique<T>(parts: seq<seq<T>>, sep: T)
    requires parts != []
    requires forall part :: part in parts ==> sep !in part
    ensures Split(Join(parts, sep), sep) == parts
  {
    SplitOfJoin(parts, sep);
    SplitEachWithoutSeparator(parts, sep);
  }

  lemma {:induction false} SplitLength<T>(s: seq<T>, sep: T)
    ensures |Split(s, sep)| == 1 + multiset(s)[sep]
  {
    if s != [] {
      SplitLength(s[1..], sep);
      assert s == [s[0]] + s[1..];
    }
  }

  lemma {:induction false} SplitEachLength<T>(values: seq<seq<T>>, sep: T)
    ensures |SplitEach(values, sep)| >= |values|
    ensures |SplitEach(values, sep)| == |values| ==> forall v :: v in values ==> sep !in v
  {
    if values != [] {
      SplitLength(values[0], sep);
      SplitEachLength(values[1..], sep);
    }
  }

  /** Join then Split is the identity exactly on non-empty lists of separator-free values. */
  lemma SplitJoinIdentity<T>(values: seq<seq<T>>, sep: T)
    ensures Split(Join(values, sep), sep) == values
            <==> values != [] && forall v :: v in values ==> sep !in v
  {
    if values != [] {
      SplitOfJoin(values, sep);
      SplitEachLength(values, sep);
      if forall v :: v in values ==> sep !in v {
        SplitEachWithoutSeparator(values, sep);
      }
    }
  }

  /** Cut stops at the first separator: the head has none, and the pieces rebuild the string. */
  lemma {:induction false} CutSound<T>(s: seq<T>, sep: T)
    ensures sep !in Cut(s, sep)[0]
    ensures sep !in s ==> Cut(s, sep) == [s]
    ensures sep in s ==> s == Cut(s, sep)[0] + [sep] + Cut(s, sep)[1]
    ensures Cut(s, sep)[0] == Split(s, sep)[0]
  {
    if s != [] && s[0] != sep {
      assert s == [s[0]] + s[1..];
      CutSound(s[1..], sep);
    }
  }

  /** Cut recovers both halves when the first half has no separator. */
  lemma {:induction false} CutUnique<T>(head: seq<T>, sep: T, tail: seq<T>)
    requires sep !in head
    ensures Cut(head + [sep] + tail, sep) == [head, tail]
  {
    var whole := head + [sep] + tail;
    if head == [] {
      assert whole[1..] == tail;
    } else {
      assert whole[1..] == head[1..] + [sep] + tail;
      assert head == [head[0]] + head[1..];
      CutUnique(head[1..], sep, tail);
    }
  }

  lemma ContainsElement<T>(s: seq<T>, sub: seq<T>, k: nat)
    requires Contains(s, sub)
    requires k < |sub|
    ensures sub[k] in s
  {
    var i :| 0 <= i <= |s| - |sub| && OccursAt(s, sub, i);
    assert s[i..i + |sub|][k] == s[i + k];
  }

  lemma {:induction false} JoinElements<T>(parts: seq<seq<T>>, sep: T, x: T)
    requires x != sep
    ensures x in Join(parts, sep) <==> exists part :: part in parts && x in part
  {
    if |parts| == 1 {
      assert x in parts[0] ==> parts[0] in parts;
    } else if |parts| > 1 {
      JoinElements(parts[1..], sep, x);
      assert forall part :: part in parts <==> part == parts[0] || part in parts[1..];
    }
  }
}
