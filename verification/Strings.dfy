/** Byte strings of the C code, one `char` per byte, and the ordered lists built over them. */
module Strings {

  datatype Option<+T> = None | Some(value: T)

  /** xmlStrcmp: the sign says which string comes first, byte by byte. */
  function Compare(a: string, b: string): int
  {
    if a == [] then (if b == [] then 0 else -1)
    else if b == [] then 1
    else if a[0] != b[0] then a[0] as int - b[0] as int
    else Compare(a[1..], b[1..])
  }

  lemma {:induction false} CompareSound(a: string, b: string)
    ensures Compare(a, b) == 0 <==> a == b
    ensures Compare(a, b) < 0 <==> Compare(b, a) > 0
  {
    if a != [] && b != [] && a[0] == b[0] {
      CompareSound(a[1..], b[1..]);
      assert a == [a[0]] + a[1..] && b == [b[0]] + b[1..];
    }
  }

  lemma {:induction false} CompareTransitive(a: string, b: string, c: string)
    requires Compare(a, b) < 0 && Compare(b, c) < 0
    ensures Compare(a, c) < 0
  {
    if a != [] && b != [] && c != [] && a[0] == b[0] && b[0] == c[0] {
      CompareTransitive(a[1..], b[1..], c[1..]);
    }
  }

  /** `a` comes first by its byte at `k`, up to which the two are the same, or by ending there. */
  predicate EarlierAt(a: string, b: string, k: nat)
  {
    && k <= |a| && k < |b| && a[..k] == b[..k]
    && (k < |a| ==> a[k] < b[k])
  }

  /** The order of strings by their bytes. */
  ghost predicate Earlier(a: string, b: string)
  {
    exists k: nat :: EarlierAt(a, b, k)
  }

  lemma EarlierHead(a: string, b: string, k: nat)
    requires a != [] && b != [] && a[0] == b[0]
    ensures EarlierAt(a, b, k + 1) <==> EarlierAt(a[1..], b[1..], k)
  {
    if k < |b| - 1 && k <= |a| - 1 {
      assert a[..k + 1] == [a[0]] + a[1..][..k] && b[..k + 1] == [b[0]] + b[1..][..k];
    }
  }

  /** The comparison says which string comes first in that order. */
  lemma {:induction false} CompareIsByteOrder(a: string, b: string)
    ensures Compare(a, b) < 0 <==> Earlier(a, b)
  {
    if a == [] {
      if b != [] { assert EarlierAt(a, b, 0); }
    } else if b != [] {
      if a[0] == b[0] {
        CompareIsByteOrder(a[1..], b[1..]);
        if k: nat :| EarlierAt(a[1..], b[1..], k) {
          EarlierHead(a, b, k);
        }
        if k: nat :| EarlierAt(a, b, k) {
          assert k > 0;
          EarlierHead(a, b, k - 1);
        }
      } else {
        assert Earlier(a, b) <==> EarlierAt(a, b, 0) by { DifferAtOnce(a, b); }
      }
    }
  }

  lemma DifferAtOnce(a: string, b: string)
    requires a != [] && b != [] && a[0] != b[0]
    ensures forall k: nat :: EarlierAt(a, b, k) ==> k == 0
  {
    forall k: nat | k > 0 ensures !EarlierAt(a, b, k) {
      if k <= |a| && k < |b| {
        assert a[..k][0] == a[0] && b[..k][0] == b[0];
      }
    }
  }

  lemma Assoc(a: string, b: string, c: string)
    ensures (a + b) + c == a + (b + c)
  {
  }

  lemma Cancel(a: string, b: string, c: string)
    ensures a + b == a + c <==> b == c
  {
    assert (a + b)[|a|..] == b && (a + c)[|a|..] == c;
  }

  lemma TakeOne<T>(s: seq<T>, i: nat)
    requires i < |s|
    ensures s[..i + 1] == s[..i] + [s[i]]
    ensures forall x :: x in s[..i + 1] <==> x in s[..i] || x == s[i]
  {
    assert s[..i + 1] == s[..i] + [s[i]];
  }

  predicate StartsWith(s: string, prefix: string)
  {
    |prefix| <= |s| && s[..|prefix|] == prefix
  }

  /** Writes `s` at `at`, one character after the other. */
  method Put(buffer: array<char>, at: nat, s: string)
    requires at + |s| <= buffer.Length
    modifies buffer
    ensures buffer[..at + |s|] == old(buffer[..at]) + s
  {
    for i := 0 to |s|
      invariant buffer[..at + i] == old(buffer[..at]) + s[..i]
    {
      buffer[at + i] := s[i];
      assert buffer[..at + i + 1] == buffer[..at + i] + [s[i]];
      assert s[..i + 1] == s[..i] + [s[i]];
    }
  }
}

/** list.c: lists kept in order by a comparator, and the order they end up in. */
module SortedLists {

  /** xmlListInsert: put `x` in front of the first element that is not below it. */
  function Insert<T>(l: seq<T>, x: T, cmp: (T, T) -> int): seq<T>
  {
    if l == [] || cmp(l[0], x) >= 0 then [x] + l
    else [l[0]] + Insert(l[1..], x, cmp)
  }

  /** Strictly ascending: every element is below all that follow it. */
  ghost predicate Ascending<T>(s: seq<T>, cmp: (T, T) -> int)
  {
    s == [] || ((forall y :: y in s[1..] ==> cmp(s[0], y) < 0) && Ascending(s[1..], cmp))
  }

  /** `s` lists the members of `S`, each once, in strictly ascending order. */
  ghost predicate Lists<T>(s: seq<T>, S: set<T>, cmp: (T, T) -> int)
  {
    && Ascending(s, cmp)
    && (forall x :: x in S ==> x in s)
    && (forall x :: x in s ==> x in S)
  }

  lemma {:induction false} AscendingAt<T>(s: seq<T>, cmp: (T, T) -> int, i: nat, j: nat)
    requires Ascending(s, cmp) && i < j < |s|
    ensures cmp(s[i], s[j]) < 0
    decreases i
  {
    if i == 0 {
      assert s[j] == s[1..][j - 1];
    } else {
      AscendingAt(s[1..], cmp, i - 1, j - 1);
    }
  }

  ghost predicate Asymmetric<T(!new)>(cmp: (T, T) -> int)
  {
    forall a, b :: cmp(a, b) < 0 ==> cmp(b, a) > 0
  }

  ghost predicate Transitive<T(!new)>(cmp: (T, T) -> int)
  {
    forall a, b, c :: cmp(a, b) < 0 && cmp(b, c) < 0 ==> cmp(a, c) < 0
  }

  /** `cmp` never calls two different members of `S` equal. */
  ghost predicate Separates<T(!new)>(cmp: (T, T) -> int, S: set<T>)
  {
    forall a, b :: a in S && b in S && a != b ==> cmp(a, b) < 0 || cmp(b, a) < 0
  }

  /** The one ascending listing of `S`, whatever order its members arrived in. */
  ghost function Sorted<T(!new)>(S: set<T>, cmp: (T, T) -> int): seq<T>
  {
    if exists s :: Lists(s, S, cmp) then (var s :| Lists(s, S, cmp); s) else []
  }

  lemma EmptyIff<T(!new)>(s: seq<T>)
    ensures s == [] <==> forall x :: x !in s
  {
    if s != [] { assert s[0] in s; }
  }

  lemma {:induction false} ListsUnique<T(!new)>(s: seq<T>, t: seq<T>, S: set<T>, cmp: (T, T) -> int)
    requires Asymmetric(cmp)
    requires Lists(s, S, cmp) && Lists(t, S, cmp)
    ensures s == t
    decreases |s|
  {
    EmptyIff(s);
    EmptyIff(t);
    if s != [] {
      assert s[0] in S && t[0] in S;
      assert s == [s[0]] + s[1..] && t == [t[0]] + t[1..];
      assert s[0] == t[0];
      var rest := S - {s[0]};
      assert Lists(s[1..], rest, cmp) && Lists(t[1..], rest, cmp);
      ListsUnique(s[1..], t[1..], rest, cmp);
    }
  }

  lemma SortedIs<T(!new)>(s: seq<T>, S: set<T>, cmp: (T, T) -> int)
    requires Asymmetric(cmp)
    requires Lists(s, S, cmp)
    ensures Sorted(S, cmp) == s
  {
    ListsUnique(s, Sorted(S, cmp), S, cmp);
  }

  lemma {:induction false} InsertElements<T(!new)>(l: seq<T>, x: T, cmp: (T, T) -> int)
    ensures forall y :: y in Insert(l, x, cmp) <==> y == x || y in l
  {
    if l != [] && cmp(l[0], x) < 0 {
      InsertElements(l[1..], x, cmp);
      assert l == [l[0]] + l[1..];
    }
  }

  lemma {:induction false} InsertLists<T(!new)>(l: seq<T>, x: T, S: set<T>, cmp: (T, T) -> int)
    requires Asymmetric(cmp) && Transitive(cmp)
    requires Lists(l, S, cmp)
    requires x !in S && Separates(cmp, S + {x})
    ensures Lists(Insert(l, x, cmp), S + {x}, cmp)
    decreases |l|
  {
    InsertElements(l, x, cmp);
    if l != [] {
      assert l[0] in S && l == [l[0]] + l[1..];
      if cmp(l[0], x) < 0 {
        var rest := S - {l[0]};
        assert Lists(l[1..], rest, cmp);
        InsertLists(l[1..], x, rest, cmp);
        InsertElements(l[1..], x, cmp);
      }
    }
  }

  /** Every finite set the comparator separates has its ascending listing. */
  lemma {:induction false} SortedExists<T(!new)>(S: set<T>, cmp: (T, T) -> int)
    requires Asymmetric(cmp) && Transitive(cmp) && Separates(cmp, S)
    ensures Lists(Sorted(S, cmp), S, cmp)
  {
    if S == {} {
      assert Lists([], S, cmp);
    } else {
      var x :| x in S;
      SortedExists(S - {x}, cmp);
      assert S - {x} + {x} == S;
      InsertLists(Sorted(S - {x}, cmp), x, S - {x}, cmp);
    }
  }
}
