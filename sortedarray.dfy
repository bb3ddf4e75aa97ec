/** A fixed-capacity array kept strictly increasing; adding shifts the larger
    elements one place to the right. The sorted-insert specification is also
    the one the evaluation engine uses for its ordered set of changed nodes. */
module SortedArrays {

  predicate StrictlySorted(s: seq<int>)
  {
    forall a, b :: 0 <= a < b < |s| ==> s[a] < s[b]
  }

  /** The index of the first element greater than v (or |s| if there is none). */
  function InsertPos(s: seq<int>, v: int): (k: nat)
    ensures k <= |s|
    ensures forall t :: 0 <= t < k ==> s[t] <= v
    ensures k < |s| ==> s[k] > v
  {
    if s == [] || s[0] > v then 0 else 1 + InsertPos(s[1..], v)
  }

  /** v placed before the first element greater than it. */
  function Insert(s: seq<int>, v: int): seq<int>
  {
    var k := InsertPos(s, v);
    s[..k] + [v] + s[k..]
  }

  /** Inserting a new value into a strictly sorted sequence keeps it strictly
      sorted, adds exactly that value, and grows it by one. */
  lemma InsertSorted(s: seq<int>, v: int)
    requires StrictlySorted(s) && v !in s
    ensures StrictlySorted(Insert(s, v))
    ensures |Insert(s, v)| == |s| + 1
    ensures forall x :: x in Insert(s, v) <==> x in s || x == v
  {
    InsertOrdered(s, v);
    InsertMembers(s, v);
  }

  /** Elements before the insertion point stay in place, later ones move one to the right. */
  lemma InsertShifts(s: seq<int>, v: int)
    ensures |Insert(s, v)| == |s| + 1
    ensures Insert(s, v)[InsertPos(s, v)] == v
    ensures forall t :: 0 <= t < InsertPos(s, v) ==> Insert(s, v)[t] == s[t]
    ensures forall t :: InsertPos(s, v) <= t < |s| ==> Insert(s, v)[t + 1] == s[t]
  {
    var k := InsertPos(s, v);
    var r := Insert(s, v);
    var front, back := s[..k], s[k..];
    assert r == front + [v] + back;
    forall t | 0 <= t < k
      ensures r[t] == s[t]
    {
      assert r[t] == front[t];
    }
    forall t | k <= t < |s|
      ensures r[t + 1] == s[t]
    {
      assert r[t + 1] == back[t - k];
    }
  }

  /** One entry of the inserted sequence. */
  lemma InsertAt(s: seq<int>, v: int, t: int)
    requires 0 <= t <= |s|
    ensures |Insert(s, v)| == |s| + 1
    ensures Insert(s, v)[t] == if t < InsertPos(s, v) then s[t] else if t == InsertPos(s, v) then v else s[t - 1]
  {
    InsertShifts(s, v);
    if t > InsertPos(s, v) {
      assert Insert(s, v)[(t - 1) + 1] == s[t - 1];
    }
  }

  lemma InsertOrdered(s: seq<int>, v: int)
    requires StrictlySorted(s) && v !in s
    ensures StrictlySorted(Insert(s, v))
  {
    var k := InsertPos(s, v);
    var r := Insert(s, v);
    InsertShifts(s, v);
    forall a, b | 0 <= a < b < |r|
      ensures r[a] < r[b]
    {
      InsertAt(s, v, a);
      InsertAt(s, v, b);
      if b == k {
        assert s[a] in s;
      } else if a == k {
        assert s[k] <= s[b - 1];
      }
    }
  }

  lemma InsertMembers(s: seq<int>, v: int)
    ensures forall x :: x in Insert(s, v) <==> x in s || x == v
  {
    var k := InsertPos(s, v);
    var r := Insert(s, v);
    InsertShifts(s, v);
    forall x
      ensures x in r <==> x in s || x == v
    {
      if x in s {
        var t :| 0 <= t < |s| && s[t] == x;
        if t < k { assert r[t] == x; } else { assert r[t + 1] == x; }
      }
      if x in r {
        var t :| 0 <= t < |r| && r[t] == x;
        if t < k { assert s[t] == x; } else if t > k { assert s[t - 1] == x; }
      }
    }
  }

  class SortedArray {
    var data: array<int>
    var size: int

    ghost predicate Valid()
      reads this, data
    {
      0 <= size <= data.Length && StrictlySorted(data[..size])
    }

    /** The stored elements, in order. */
    ghost function Contents(): seq<int>
      reads this, data
      requires 0 <= size <= data.Length
    {
      data[..size]
    }

    constructor (maxSize: nat)
      ensures Valid() && fresh(data)
      ensures data.Length == maxSize && Contents() == []
    {
      data := new int[maxSize];
      size := 0;
    }

    /** The number of stored elements. */
    function Size(): (n: int)
      reads this, data
      requires Valid()
      ensures n == |Contents()|
    {
      size
    }

    /** Adds val unless it is already present; returns whether it was added.
        There is no capacity check, so a new value needs a free slot. */
    method Add(val: int) returns (added: bool)
      requires Valid()
      requires val !in Contents() ==> size < data.Length
      modifies this, data
      ensures Valid() && data == old(data)
      ensures added <==> val !in old(Contents())
      ensures Contents() == if added then Insert(old(Contents()), val) else old(Contents())
    {
      ghost var s := data[..size];
      var i := 0;
      while i < size
        invariant 0 <= i <= size == |s| && data == old(data)
        invariant forall t :: 0 <= t < data.Length ==> data[t] == old(data[t])
        invariant forall t :: 0 <= t < i ==> s[t] < val
      {
        var tmp := data[i];
        if tmp > val {
          assert val !in s by {
            assert forall t :: i < t < size ==> s[i] < s[t];
          }
          ShiftUp(i);
          break;
        } else if tmp == val {
          assert s[i] == val;
          return false;
        }
        i := i + 1;
      }
      Place(s, i, val);
      added := true;
    }

    /** The tail of add(): val goes into the gap at i, which the larger
        elements have been shifted out of, and the size grows by one. */
    method Place(ghost s: seq<int>, i: int, val: int)
      requires 0 <= i <= size == |s| < data.Length && StrictlySorted(s) && val !in s
      requires forall t :: 0 <= t < i ==> data[t] == s[t] && s[t] < val
      requires forall t :: i < t <= size ==> data[t] == s[t - 1]
      requires i < size ==> s[i] > val
      modifies this, data
      ensures data == old(data) && Valid()
      ensures Contents() == Insert(s, val)
    {
      assert InsertPos(s, val) == i;
      data[i] := val;
      size := size + 1;
      InsertShifts(s, val);
      assert data[..size] == Insert(s, val);
      InsertSorted(s, val);
    }

    /** Moves the elements at [i, size) one place to the right, last one first. */
    method ShiftUp(i: int)
      requires 0 <= i <= size < data.Length
      modifies data
      ensures forall t :: 0 <= t <= i ==> data[t] == old(data[t])
      ensures forall t :: i < t <= size ==> data[t] == old(data[t - 1])
      ensures forall t :: size < t < data.Length ==> data[t] == old(data[t])
    {
      var j := size;
      while j > i
        invariant i <= j <= size
        invariant forall t :: 0 <= t <= j ==> data[t] == old(data[t])
        invariant forall t :: j < t <= size ==> data[t] == old(data[t - 1])
        invariant forall t :: size < t < data.Length ==> data[t] == old(data[t])
      {
        data[j] := data[j - 1];
        j := j - 1;
      }
    }

    /** Empties the array; the capacity is unchanged. */
    method Clear()
      requires Valid()
      modifies this
      ensures Valid() && data == old(data) && Contents() == []
    {
      size := 0;
    }
  }
}
