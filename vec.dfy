/** `Vector<T>`: a growable array. `Buffer` owns the allocation (`ptr`,
    `cap`), `Vector` counts the initialised prefix (`len`), and `RawIter`
    walks a window `[start, end)` of a buffer from both ends. Slots past
    `len` hold whatever was last written there. */
module Vec {
  import opened Arena

  /** `ptr::copy(src, dst, count)` on a buffer `s`: the `count` slots from
      `dst` receive what the `count` slots from `src` held, overlap allowed;
      every other slot keeps its value. */
  function Moved<T>(s: seq<T>, src: nat, dst: nat, count: nat): (m: seq<T>)
    requires src + count <= |s| && dst + count <= |s|
    ensures |m| == |s|
    ensures forall j :: 0 <= j < |s| && dst <= j < dst + count ==> m[j] == s[src + j - dst]
    ensures forall j :: 0 <= j < |s| && !(dst <= j < dst + count) ==> m[j] == s[j]
  {
    seq(|s|, j requires 0 <= j < |s| => if dst <= j < dst + count then s[src + j - dst] else s[j])
  }

  /** The allocation: `cap` slots at `data`. */
  class Buffer<T(0)> {
    var data: array<T>
    var cap: nat

    ghost predicate Valid()
      reads this
    {
      cap == data.Length
    }

    /** `Buffer::new` for a sized `T`: no allocation, capacity 0. */
    constructor ()
      ensures Valid() && cap == 0 && fresh(data)
    {
      data := new T[0];
      cap := 0;
    }

    /** `grow`: allocate one slot when the capacity is 0, otherwise
        reallocate to twice the capacity; the old slots keep their values. */
    method Grow()
      requires Valid()
      modifies this
      ensures Valid() && fresh(data)
      ensures cap == if old(cap) == 0 then 1 else 2 * old(cap)
      ensures data[..old(cap)] == old(data[..])
    {
      var newCap: nat;
      var newData: array<T>;
      if cap == 0 {
        newCap := 1;
        newData := new T[1];
      } else {
        newCap := cap * 2;
        newData := new T[newCap];
        forall i | 0 <= i < cap {
          newData[i] := data[i];
        }
      }
      data := newData;
      cap := newCap;
    }

    /** `ptr::copy` within the buffer: copy forwards when moving towards the
        front and backwards when moving towards the back, so that no slot is
        overwritten before it is read. */
    method Copy(src: nat, dst: nat, count: nat)
      requires Valid() && src + count <= cap && dst + count <= cap
      modifies data
      ensures data[..] == Moved(old(data[..]), src, dst, count)
    {
      ghost var s := data[..];
      if dst <= src {
        var i := 0;
        while i < count
          invariant 0 <= i <= count
          invariant forall j :: 0 <= j < data.Length && dst <= j < dst + i ==> data[j] == s[src + j - dst]
          invariant forall j :: 0 <= j < data.Length && !(dst <= j < dst + i) ==> data[j] == s[j]
        {
          data[dst + i] := data[src + i];
          i := i + 1;
        }
      } else {
        var i := count;
        while i > 0
          invariant 0 <= i <= count
          invariant forall j :: 0 <= j < data.Length && dst + i <= j < dst + count ==> data[j] == s[src + j - dst]
          invariant forall j :: 0 <= j < data.Length && !(dst + i <= j < dst + count) ==> data[j] == s[j]
        {
          i := i - 1;
          data[dst + i] := data[src + i];
        }
      }
      assert data[..] == Moved(s, src, dst, count);
    }
  }

  class Vector<T(0)> {
    const buf: Buffer<T>
    var len: nat

    ghost predicate Valid()
      reads this, buf
    {
      buf.Valid() && len <= buf.cap
    }

    /** The initialised prefix: what the slice view shows. */
    ghost function Elements(): seq<T>
      reads this, buf, buf.data
      requires Valid()
    {
      buf.data[..len]
    }

    constructor ()
      ensures Valid() && Elements() == [] && buf.cap == 0 && fresh(buf) && fresh(buf.data)
    {
      buf := new Buffer();
      len := 0;
    }

    function Len(): (n: nat)
      reads this, buf, buf.data
      requires Valid()
      ensures n == |Elements()|
    {
      len
    }

    /** `cap()`. */
    function Cap(): (n: nat)
      reads this, buf
      requires Valid()
      ensures n == buf.data.Length && |Elements()| <= n
    {
      buf.cap
    }

    /** Grow when full, then write the value into slot `len`. */
    method Push(value: T)
      requires Valid()
      modifies this, buf, buf.data
      ensures Valid() && Elements() == old(Elements()) + [value]
      ensures old(len) < old(buf.cap) ==> buf.cap == old(buf.cap) && buf.data == old(buf.data)
      ensures old(len) == old(buf.cap) ==> buf.cap == (if old(buf.cap) == 0 then 1 else 2 * old(buf.cap)) && fresh(buf.data)
    {
      if len == buf.cap {
        buf.Grow();
      }
      buf.data[len] := value;
      len := len + 1;
    }

    /** Shrink `len` by one and read the slot it leaves. */
    method Pop() returns (r: Option<T>)
      requires Valid()
      modifies this
      ensures Valid()
      ensures old(len) == 0 ==> r == None && len == 0
      ensures old(len) > 0 ==> r == Some(old(Elements())[old(len) - 1]) && Elements() == old(Elements())[..old(len) - 1]
    {
      if len == 0 {
        r := None;
      } else {
        len := len - 1;
        r := Some(buf.data[len]);
      }
    }

    /** Grow when full, shift the slots from `index` one to the right, and
        write the value at `index`. */
    method Insert(index: nat, value: T)
      requires Valid() && index <= len
      modifies this, buf, buf.data
      ensures Valid() && Elements() == old(Elements())[..index] + [value] + old(Elements())[index..]
      ensures old(len) < old(buf.cap) ==> buf.cap == old(buf.cap) && buf.data == old(buf.data)
      ensures old(len) == old(buf.cap) ==> buf.cap == (if old(buf.cap) == 0 then 1 else 2 * old(buf.cap)) && fresh(buf.data)
    {
      ghost var s := Elements();
      if buf.cap == len {
        buf.Grow();
        assert buf.data[..len] == s;
      }
      ShiftIn(index, value);
      len := len + 1;
    }

    /** `ptr::copy` of the slots from `index` one to the right, then
        `ptr::write` of the value at `index`. */
    method ShiftIn(index: nat, value: T)
      requires Valid() && index <= len < buf.cap
      modifies buf.data
      ensures buf.data[..len + 1] == old(buf.data[..len])[..index] + [value] + old(buf.data[..len])[index..]
    {
      ghost var d := buf.data[..];
      buf.Copy(index, index + 1, len - index);
      buf.data[index] := value;
      ghost var m := buf.data[..];
      assert m == Moved(d, index, index + 1, len - index)[index := value];
      ShiftRight(d, len, index, value);
      assert buf.data[..len + 1] == m[..len + 1];
      assert d[..len][..index] == d[..index] && d[..len][index..] == d[index..len];
    }

    /** `remove` as the source writes it: read slot `index`, then copy the
        `len - index` slots from `index + 1` one to the left, leaving `len`
        as it was. The copy reads slot `len`, which is outside the buffer when
        `len == cap`; this model can only state the case where it is inside. */
    method RemoveAsWritten(index: nat) returns (r: T)
      requires Valid() && index < len && len < buf.cap
      modifies buf.data
      ensures Valid() && len == old(len) && r == old(Elements())[index]
      ensures buf.data[..] == Moved(old(buf.data[..]), index + 1, index, old(len) - index)
    {
      r := buf.data[index];
      buf.Copy(index + 1, index, len - index);
    }

    /** `remove` as intended: shift the `len - index - 1` live slots after
        `index` one to the left and shorten the vector by one. */
    method Remove(index: nat) returns (r: T)
      requires Valid() && index < len
      modifies this, buf.data
      ensures Valid() && r == old(Elements())[index]
      ensures Elements() == old(Elements())[..index] + old(Elements())[index + 1..]
    {
      ghost var d, s := buf.data[..], Elements();
      r := buf.data[index];
      buf.Copy(index + 1, index, len - index - 1);
      ShiftLeft(d, len, index);
      assert buf.data[..len - 1] == d[..index] + d[index + 1..len];
      assert s[..index] == d[..index] && s[index + 1..] == d[index + 1..len];
      len := len - 1;
    }

    /** `drain`: a window over the live slots, after which the vector is empty. */
    method Drain() returns (d: RawIter<T>)
      requires Valid()
      modifies this
      ensures Valid() && len == 0 && buf.data == old(buf.data)
      ensures fresh(d) && d.Valid() && d.data == buf.data && d.Remaining() == old(Elements())
    {
      d := new RawIter(buf.data, len);
      len := 0;
    }
  }

  /** Shifting the live slots from `index` right by one and writing `v` at
      `index` inserts `v` into the live elements. */
  lemma ShiftRight<T>(d: seq<T>, len: nat, index: nat, v: T)
    requires index <= len < |d|
    ensures Moved(d, index, index + 1, len - index)[index := v][..len + 1] == d[..index] + [v] + d[index..len]
  {
    var m := Moved(d, index, index + 1, len - index)[index := v];
    forall j | 0 <= j < len + 1 ensures m[j] == (d[..index] + [v] + d[index..len])[j] {
      if j > index {
        assert m[j] == d[j - 1];
      }
    }
  }

  /** Shifting the live slots after `index` left by one drops element `index`. */
  lemma ShiftLeft<T>(d: seq<T>, len: nat, index: nat)
    requires index < len <= |d|
    ensures Moved(d, index + 1, index, len - index - 1)[..len - 1] == d[..index] + d[index + 1..len]
  {
    var m := Moved(d, index + 1, index, len - index - 1);
    forall j | 0 <= j < len - 1 ensures m[j] == (d[..index] + d[index + 1..len])[j] {
      if j >= index {
        assert m[j] == d[j + 1];
      }
    }
  }

  /** `remove` as written, on the buffer: the first `len` slots come out as the
      elements without slot `index`, followed by the slot just past the live
      elements, so the removed element's place is taken by a stale slot. */
  lemma RemoveAsWrittenStale<T>(s: seq<T>, len: nat, index: nat)
    requires index < len < |s|
    ensures Moved(s, index + 1, index, len - index)[..len] == s[..index] + s[index + 1..len] + [s[len]]
  {
    var m := Moved(s, index + 1, index, len - index);
    forall j | 0 <= j < len ensures m[j] == (s[..index] + s[index + 1..len] + [s[len]])[j] {
      if j >= index {
        assert m[j] == s[j + 1];
      }
    }
  }

  /** An instance: removing slot 0 of `[1, 2, 3]` in a four-slot buffer whose
      spare slot holds 9 leaves three elements, `[2, 3, 9]`. */
  lemma RemoveAsWrittenExample()
    ensures Moved([1, 2, 3, 9], 1, 0, 3)[..3] == [2, 3, 9] != [2, 3]
  {
    RemoveAsWrittenStale([1, 2, 3, 9], 3, 0);
    assert [1, 2, 3, 9][1..3] == [2, 3];
  }

  /** The window `[start, end)` of a buffer that `Drain` and `IntoIter` consume. */
  class RawIter<T> {
    const data: array<T>
    var start: nat
    var end: nat

    ghost predicate Valid()
      reads this
    {
      start <= end <= data.Length
    }

    /** The slots still to be read. */
    ghost function Remaining(): seq<T>
      reads this, data
      requires Valid()
    {
      data[start..end]
    }

    /** `RawIter::new` over the slice of the first `len` slots. */
    constructor (data: array<T>, len: nat)
      requires len <= data.Length
      ensures Valid() && this.data == data && Remaining() == data[..len]
    {
      this.data := data;
      start := 0;
      end := len;
    }

    method Next() returns (r: Option<T>)
      requires Valid()
      modifies this
      ensures Valid()
      ensures old(Remaining()) == [] ==> r == None && start == old(start) && end == old(end)
      ensures old(Remaining()) != [] ==> r == Some(old(Remaining())[0]) && Remaining() == old(Remaining())[1..]
    {
      if start == end {
        return None;
      }
      var oldStart := start;
      start := start + 1;
      r := Some(data[oldStart]);
    }

    method NextBack() returns (r: Option<T>)
      requires Valid()
      modifies this
      ensures Valid()
      ensures old(Remaining()) == [] ==> r == None && start == old(start) && end == old(end)
      ensures var s := old(Remaining()); s != [] ==> r == Some(s[|s| - 1]) && Remaining() == s[..|s| - 1]
    {
      if start == end {
        return None;
      }
      end := end - 1;
      r := Some(data[end]);
    }

    /** `size_hint`: the distance between the two ends. */
    function SizeHint(): (r: (nat, Option<nat>))
      reads this, data
      requires Valid()
      ensures r.0 == |Remaining()| && r.1 == Some(|Remaining()| as nat)
    {
      (end - start, Some(end - start))
    }
  }
}
