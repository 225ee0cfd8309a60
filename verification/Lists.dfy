/** Singly linked lists, as the links between the elements of a sequence. */
module Lists {
  import opened Collections

  /** What each element points at. */
  type Links<T> = map<T, Option<T>>

  function At<T>(s: seq<T>, i: nat): Option<T> {
    if i < |s| then Some(s[i]) else None
  }

  ghost predicate LinkedAt<T>(s: seq<T>, m: Links<T>, i: nat)
    requires i < |s|
  {
    s[i] in m && m[s[i]] == At(s, i + 1)
  }

  /** Each element points at the next, the last at nothing. */
  ghost predicate Linked<T>(s: seq<T>, m: Links<T>) {
    forall i: nat :: i < |s| ==> LinkedAt(s, m, i)
  }

  lemma LinkedFrame<T>(s: seq<T>, m: Links<T>, n: Links<T>)
    requires Linked(s, m) && forall i :: 0 <= i < |s| && s[i] in m ==> s[i] in n && n[s[i]] == m[s[i]]
    ensures Linked(s, n)
  {
    forall i: nat | i < |s| ensures LinkedAt(s, n, i) {
      assert LinkedAt(s, m, i);
    }
  }

  /** Cutting off the head. */
  lemma Beheaded<T>(s: seq<T>, m: Links<T>)
    requires Linked(s, m) && s != []
    ensures Linked(s[1..], m)
  {
    forall i: nat | i < |s| - 1 ensures LinkedAt(s[1..], m, i) {
      assert LinkedAt(s, m, i + 1);
    }
  }

  /** Cutting out entry i + 1. */
  lemma Unlinked<T>(s: seq<T>, m: Links<T>, i: nat)
    requires Linked(s, m) && Distinct(s) && i + 1 < |s|
    ensures Linked(s[..i + 1] + s[i + 2..], m[s[i] := At(s, i + 2)])
  {
    var r := s[..i + 1] + s[i + 2..];
    var n := m[s[i] := At(s, i + 2)];
    forall j: nat | j < |r| ensures LinkedAt(r, n, j) {
      var o := if j <= i then j else j + 1;
      assert r[j] == s[o] && LinkedAt(s, m, o);
    }
  }

  /** Putting x in at place i. */
  lemma Inserted<T>(s: seq<T>, m: Links<T>, i: nat, x: T)
    requires Linked(s, m) && Distinct(s) && x !in s && i <= |s|
    ensures var n := m[x := At(s, i)];
      Linked(s[..i] + [x] + s[i..], if i == 0 then n else n[s[i - 1] := Some(x)])
  {
    var r, n := s[..i] + [x] + s[i..], m[x := At(s, i)];
    var n' := if i == 0 then n else n[s[i - 1] := Some(x)];
    forall j: nat | j < |r| ensures LinkedAt(r, n', j) {
      if j != i {
        var o := if j < i then j else j - 1;
        assert r[j] == s[o] && LinkedAt(s, m, o);
      } else {
        assert r[j] == x && At(r, i + 1) == At(s, i);
      }
    }
  }

  lemma InsertedElements<T>(s: seq<T>, i: nat, x: T)
    requires i <= |s| && Distinct(s) && x !in s
    ensures var r := s[..i] + [x] + s[i..];
      && Distinct(r) && At(r, 0) == Some(if i == 0 then x else s[0])
      && forall a :: a in r <==> a == x || a in s
  {
    var r := s[..i] + [x] + s[i..];
    forall a | a in s ensures a in r {
      var j :| 0 <= j < |s| && s[j] == a;
      assert r[if j < i then j else j + 1] == a;
    }
    assert r[i] == x;
  }

  lemma LinkAt<T>(s: seq<T>, m: Links<T>, i: nat)
    requires Linked(s, m) && i < |s|
    ensures s[i] in m && m[s[i]] == At(s, i + 1)
  {
    assert LinkedAt(s, m, i);
  }
}
