/** The two list updates the entities apply to their lists of ids:
    append-if-absent (`Author.add_book`, `Member.borrow_book`) and
    remove-if-present, which is Python's `list.remove` of the first
    occurrence (`Author.remove_book`, `Member.return_book`). */
module IdLists {

  /** No id occurs twice. */
  ghost predicate NoDuplicates(s: seq<string>) {
    forall i, j :: 0 <= i < j < |s| ==> s[i] != s[j]
  }

  /** `if x not in s: s.append(x)`: `s` is kept as a prefix, `x` is in the
      result, nothing else is added, and at most one element is added. */
  function Added(s: seq<string>, x: string): (r: seq<string>)
    ensures x in r
    ensures |s| <= |r| <= |s| + 1 && r[..|s|] == s
    ensures forall y :: y in r <==> y in s || y == x
    ensures NoDuplicates(s) ==> NoDuplicates(r)
  {
    if x in s then s else s + [x]
  }

  /** The position of the first occurrence of `x` in `s`. */
  function FirstIndex(s: seq<string>, x: string): (i: nat)
    requires x in s
    ensures i < |s| && s[i] == x && x !in s[..i]
  {
    if s[0] == x then 0
    else
      var j := FirstIndex(s[1..], x);
      assert s[..j + 1] == [s[0]] + s[1..][..j];
      j + 1
  }

  /** `if x in s: s.remove(x)`: when `x` is absent nothing changes; otherwise
      the list loses exactly one element (which one: RemovedCutsFirst). */
  function Removed(s: seq<string>, x: string): (r: seq<string>)
    ensures x !in s ==> r == s
    ensures x in s ==> |r| == |s| - 1
    decreases |s|
  {
    if s == [] then s
    else if s[0] == x then s[1..]
    else
      assert x in s ==> x in s[1..];
      [s[0]] + Removed(s[1..], x)
  }

  /** The element `Removed` cuts out is the first occurrence of `x`; the order
      of the others is kept. */
  lemma {:induction false} RemovedCutsFirst(s: seq<string>, x: string)
    requires x in s
    ensures Removed(s, x) == s[..FirstIndex(s, x)] + s[FirstIndex(s, x) + 1..]
  {
    if s[0] != x {
      assert x in s[1..];
      RemovedCutsFirst(s[1..], x);
      var j := FirstIndex(s[1..], x);
      assert FirstIndex(s, x) == j + 1;
      assert s[..j + 1] == [s[0]] + s[1..][..j];
      assert s[j + 2..] == s[1..][j + 1..];
    }
  }

  /** On a list without duplicates, removing `x` leaves no duplicates, no `x`,
      and every other element. */
  lemma {:induction false} RemovedNoDuplicates(s: seq<string>, x: string)
    requires NoDuplicates(s)
    ensures NoDuplicates(Removed(s, x))
    ensures forall y :: y in Removed(s, x) <==> y in s && y != x
  {
    if s != [] {
      var t := s[1..];
      assert NoDuplicates(t) by {
        forall a, b | 0 <= a < b < |t| ensures t[a] != t[b] {
          assert t[a] == s[a + 1] && t[b] == s[b + 1];
        }
      }
      assert s[0] !in t by {
        forall k | 0 <= k < |t| ensures t[k] != s[0] {
          assert t[k] == s[k + 1];
        }
      }
      assert forall y :: y in s <==> y == s[0] || y in t;
      if s[0] != x {
        RemovedNoDuplicates(t, x);
        var r := Removed(s, x);
        assert r == [s[0]] + Removed(t, x);
        forall a, b | 0 <= a < b < |r| ensures r[a] != r[b] {
          if a == 0 {
            assert r[b] == Removed(t, x)[b - 1];
          } else {
            assert r[a] == Removed(t, x)[a - 1] && r[b] == Removed(t, x)[b - 1];
          }
        }
      }
    }
  }

  /** `add(x)` followed by `remove(x)` on a list without `x` gives back the list. */
  lemma AddedThenRemoved(s: seq<string>, x: string)
    requires x !in s
    ensures Removed(Added(s, x), x) == s
  {
    RemovedAppended(s, x);
  }

  /** Removing an id appended to a list that lacks it gives back the list. */
  lemma {:induction false} RemovedAppended(s: seq<string>, x: string)
    requires x !in s
    ensures Removed(s + [x], x) == s
  {
    if s == [] {
      assert [x][1..] == [];
    } else {
      var t, u := s[1..], s + [x];
      RemovedAppended(t, x);
      assert u[1..] == t + [x];
      assert s == [s[0]] + t;
    }
  }

  /** Adding an id that is already there changes nothing, so adding twice is adding once. */
  lemma AddedIdempotent(s: seq<string>, x: string)
    ensures Added(Added(s, x), x) == Added(s, x)
  {
  }
}
