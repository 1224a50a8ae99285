/**
 * Functions on sequences that specify the list operations: the first
 * position of an element, insertion and removal at a position, absence of
 * duplicates, and the text that `toString` renders.
 */
module ListSpec {

  /** The position of the first element of `s` equal to `x`, or -1 when there is none. */
  function IndexOf<T(==)>(s: seq<T>, x: T): (r: int)
    ensures -1 <= r < |s|
    ensures r == -1 <==> x !in s
    ensures 0 <= r ==> s[r] == x && x !in s[..r]
  {
    if s == [] then -1
    else if s[0] == x then 0
    else
      var k := IndexOf(s[1..], x);
      assert 0 <= k ==> s[..k + 1] == [s[0]] + s[1..][..k];
      if k == -1 then -1 else k + 1
  }

  /** A position holding `x` with no `x` before it is the one IndexOf finds. */
  lemma IndexOfIsFirst<T>(s: seq<T>, x: T, k: int)
    requires 0 <= k < |s| && s[k] == x && x !in s[..k]
    ensures IndexOf(s, x) == k
  {
  }

  /** `s` with `x` inserted so that it lands at position `i`. */
  function InsertAt<T>(s: seq<T>, i: int, x: T): (r: seq<T>)
    requires 0 <= i <= |s|
    ensures |r| == |s| + 1 && r[i] == x
    ensures forall j :: 0 <= j < i ==> r[j] == s[j]
    ensures forall j :: i <= j < |s| ==> r[j + 1] == s[j]
  {
    s[..i] + [x] + s[i..]
  }

  /** `s` without the element at position `i`, the others in their order. */
  function RemoveAt<T>(s: seq<T>, i: int): (r: seq<T>)
    requires 0 <= i < |s|
    ensures |r| == |s| - 1
    ensures forall j :: 0 <= j < i ==> r[j] == s[j]
    ensures forall j :: i <= j < |r| ==> r[j] == s[j + 1]
  {
    s[..i] + s[i + 1..]
  }

  /** Inserting at the front or at the end is prepending or appending. */
  lemma InsertAtEnds<T>(s: seq<T>, x: T)
    ensures InsertAt(s, 0, x) == [x] + s
    ensures InsertAt(s, |s|, x) == s + [x]
  {
    assert s[..0] == [] && s[0..] == s;
    assert s[..|s|] == s && s[|s|..] == [];
  }

  /** Removing what was just inserted at `i` gives back the sequence. */
  lemma {:induction false} RemoveAfterInsert<T>(s: seq<T>, i: int, x: T)
    requires 0 <= i <= |s|
    ensures RemoveAt(InsertAt(s, i, x), i) == s
  {
    var r := RemoveAt(InsertAt(s, i, x), i);
    assert |r| == |s|;
    forall j | 0 <= j < |s| ensures r[j] == s[j] {
      if j >= i {
        assert r[j] == InsertAt(s, i, x)[j + 1];
      }
    }
  }

  /** Inserting the removed element where it was gives back the sequence. */
  lemma {:induction false} InsertAfterRemove<T>(s: seq<T>, i: int)
    requires 0 <= i < |s|
    ensures InsertAt(RemoveAt(s, i), i, s[i]) == s
  {
    var r := InsertAt(RemoveAt(s, i), i, s[i]);
    assert |r| == |s|;
    forall j | 0 <= j < |s| ensures r[j] == s[j] {
      if j > i {
        assert r[j] == RemoveAt(s, i)[j - 1];
      }
    }
  }

  /** Removal at a position takes exactly one copy of that element away. */
  lemma RemoveAtMultiset<T>(s: seq<T>, i: int)
    requires 0 <= i < |s|
    ensures multiset(RemoveAt(s, i)) == multiset(s) - multiset{s[i]}
  {
    assert s == s[..i] + [s[i]] + s[i + 1..];
    assert multiset(s) == multiset(s[..i]) + multiset{s[i]} + multiset(s[i + 1..]);
  }

  /** No element occurs twice. */
  ghost predicate NoDup<T>(s: seq<T>)
  {
    forall i, j :: 0 <= i < j < |s| ==> s[i] != s[j]
  }

  /** Removing an element of a duplicate-free sequence leaves it duplicate-free and without that element. */
  lemma NoDupRemoveAt<T>(s: seq<T>, i: int)
    requires NoDup(s) && 0 <= i < |s|
    ensures NoDup(RemoveAt(s, i)) && s[i] !in RemoveAt(s, i)
  {
    var r := RemoveAt(s, i);
    forall a, b | 0 <= a < b < |r| ensures r[a] != r[b] {
      var a' := if a < i then a else a + 1;
      var b' := if b < i then b else b + 1;
      assert r[a] == s[a'] && r[b] == s[b'] && a' < b';
    }
  }

  /** Putting an absent element in front keeps a sequence duplicate-free. */
  lemma NoDupCons<T>(x: T, s: seq<T>)
    requires NoDup(s) && x !in s
    ensures NoDup([x] + s)
  {
    var r := [x] + s;
    forall a, b | 0 <= a < b < |r| ensures r[a] != r[b] {
      assert r[b] == s[b - 1];
      if a > 0 {
        assert r[a] == s[a - 1];
      }
    }
  }

  /** Every element followed by the separator " , ", as the `toString` loop appends them. */
  function Joined<T>(s: seq<T>, show: T -> string): (r: string)
    ensures s != [] ==> |r| >= 3
  {
    if s == [] then "" else show(s[0]) + " , " + Joined(s[1..], show)
  }

  /**
   * The text `toString` builds: "[", each element followed by " , ", the last
   * two characters deleted when there was an element, then "]".
   */
  function Render<T>(s: seq<T>, show: T -> string): string
  {
    var text := "[" + Joined(s, show);
    (if s == [] then text else text[..|text| - 2]) + "]"
  }

  lemma {:induction false} JoinedSnoc<T>(s: seq<T>, x: T, show: T -> string)
    ensures Joined(s + [x], show) == Joined(s, show) + show(x) + " , "
  {
    if s == [] {
      assert [x][1..] == [];
    } else {
      assert (s + [x])[1..] == s[1..] + [x];
      JoinedSnoc(s[1..], x, show);
    }
  }

  /**
   * The rendering of an empty list is "[]"; otherwise the elements are
   * separated by " , " and the last is followed by " ]".
   */
  lemma RenderShape<T>(s: seq<T>, show: T -> string)
    ensures s == [] ==> Render(s, show) == "[]"
    ensures s != [] ==> Render(s, show) == "[" + Joined(s[..|s| - 1], show) + show(s[|s| - 1]) + " ]"
  {
    if s != [] {
      var init, last := s[..|s| - 1], s[|s| - 1];
      assert s == init + [last];
      JoinedSnoc(init, last, show);
      var prefix := "[" + Joined(init, show) + show(last) + " ";
      assert "[" + Joined(s, show) == prefix + ", ";
      assert ("[" + Joined(s, show))[..|prefix|] == prefix;
    }
  }
}
