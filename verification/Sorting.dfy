/**
 * Sorting a finite set by a comparison. Ties may come out in any order, as with the
 * unstable library sort the program uses on lists taken from maps.
 */
module Sorting {
  import opened Sequences

  type Order = (nat, nat) -> bool

  /** A total preorder. */
  ghost predicate IsOrder(le: Order) {
    && (forall a, b :: le(a, b) || le(b, a))
    && (forall a, b, c :: le(a, b) && le(b, c) ==> le(a, c))
  }

  ghost predicate SortedBy(le: Order, s: seq<nat>) {
    forall i, j :: 0 <= i < j < |s| ==> le(s[i], s[j])
  }

  ghost predicate Sorts(le: Order, keys: set<nat>, s: seq<nat>) {
    NoDup(s) && Elems(s) == keys && SortedBy(le, s)
  }

  predicate Least(le: Order, keys: set<nat>, a: nat) {
    a in keys && forall b :: b in keys ==> le(a, b)
  }

  lemma LeastExists(le: Order, keys: set<nat>) returns (a: nat)
    requires IsOrder(le) && keys != {}
    ensures Least(le, keys, a)
  {
    var x: nat :| x in keys;
    a := x;
    if keys != {x} {
      var m := LeastExists(le, keys - {x});
      a := if le(x, m) then x else m;
      forall b | b in keys ensures le(a, b) {
        assert b != x ==> le(m, b);
      }
    }
  }

  /** Any sorted enumeration of the set. */
  method SortSet(keys: set<nat>, le: Order) returns (s: seq<nat>)
    requires IsOrder(le)
    ensures Sorts(le, keys, s)
  {
    s := [];
    var todo := keys;
    while todo != {}
      invariant todo <= keys && NoDup(s) && SortedBy(le, s)
      invariant forall x :: x in s <==> x in keys && x !in todo
      invariant forall i, y :: 0 <= i < |s| && y in todo ==> le(s[i], y)
      decreases todo
    {
      ghost var least := LeastExists(le, todo);
      var a: nat :| a in todo && Least(le, todo, a);
      assert Least(le, todo, a);
      s, todo := s + [a], todo - {a};
    }
  }

  predicate Ascending(s: seq<nat>) {
    forall i, j :: 0 <= i < j < |s| ==> s[i] < s[j]
  }

  /** A set has one ascending enumeration. */
  lemma {:induction false} AscendingUnique(s: seq<nat>, t: seq<nat>)
    requires Ascending(s) && Ascending(t) && Elems(s) == Elems(t)
    ensures s == t
  {
    assert t == [] || t[0] in Elems(t);
    if s != [] {
      assert s[0] in Elems(t) && t[0] in Elems(s);
      assert s[0] == t[0];
      forall x ensures x in Elems(s[1..]) <==> x in Elems(t[1..]) {
        assert x in Elems(s) <==> x in Elems(t);
      }
      AscendingUnique(s[1..], t[1..]);
    }
  }

  lemma AscendingExists(keys: set<nat>)
    ensures exists s: seq<nat> :: Ascending(s) && Elems(s) == keys
  {
    if keys == {} {
      assert Ascending([]) && Elems<nat>([]) == keys;
    } else {
      var a := LeastExists((x, y) => x <= y, keys);
      assert Least((x, y) => x <= y, keys, a);
      AscendingExists(keys - {a});
      var rest: seq<nat> :| Ascending(rest) && Elems(rest) == keys - {a};
      forall i | 0 <= i < |rest| ensures a < rest[i] {
        assert rest[i] in Elems(rest);
        assert rest[i] in keys && rest[i] != a;
      }
      assert forall x :: x in keys ==> x == a || x in Elems(rest);
      assert Ascending([a] + rest);
      assert Elems([a] + rest) == {a} + Elems(rest);
    }
  }

  /** The ascending enumeration of a set. */
  ghost function Enumerate(keys: set<nat>): (s: seq<nat>)
    ensures Ascending(s) && Elems(s) == keys
  {
    AscendingExists(keys);
    var s: seq<nat> :| Ascending(s) && Elems(s) == keys;
    s
  }

  /** Sorts a set of numbers upwards. */
  method SortAscending(keys: set<nat>) returns (s: seq<nat>)
    ensures s == Enumerate(keys)
  {
    s := SortSet(keys, (x, y) => x <= y);
    AscendingUnique(s, Enumerate(keys));
  }
}
