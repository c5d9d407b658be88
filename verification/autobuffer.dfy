/**
 The growable buffer of `native/mars/comm/autobuffer.cc`, over any element type.

 `parray_` is the allocated block: its length is `capacity_`, and a null block
 is an empty one. Allocation never fails.
 */
module AutoBuffers {

  import opened Bytes

  datatype Origin = SeekStart | SeekCur | SeekEnd

  /** `s` with `data` written over it from `p` on, growing if it sticks out. */
  function Spliced<T>(s: seq<T>, p: nat, data: seq<T>): (r: seq<T>)
    requires p <= |s|
    ensures |r| == Max(|s|, p + |data|)
  {
    s[..p] + data + if p + |data| <= |s| then s[p + |data|..] else []
  }

  /** What stands where. */
  lemma SplicedAt<T>(s: seq<T>, p: nat, data: seq<T>, k: nat)
    requires p <= |s| && k < |Spliced(s, p, data)|
    ensures Spliced(s, p, data)[k] == if p <= k < p + |data| then data[k - p] else s[k]
  {
  }

  lemma SplicedNothing<T>(s: seq<T>, p: nat)
    requires p <= |s|
    ensures Spliced(s, p, []) == s
  {
  }

  lemma SplicedTwice<T>(s: seq<T>, p: nat, x: seq<T>, y: seq<T>)
    requires p <= |s|
    ensures Spliced(Spliced(s, p, x), p + |x|, y) == Spliced(s, p, x + y)
  {
    var l := Spliced(Spliced(s, p, x), p + |x|, y);
    var r := Spliced(s, p, x + y);
    forall k | 0 <= k < |l|
      ensures l[k] == r[k]
    {
      if p + |x| + |y| <= k {
        assert r[k] == s[k];
      }
    }
  }

  lemma SplicedPrefix<T>(block: seq<T>, s: seq<T>, p: nat, data: seq<T>)
    requires p <= |s| <= |block| && p + |data| <= |block| && block[..|s|] == s
    ensures |Spliced(block, p, data)| == |block|
    ensures Spliced(block, p, data)[..Max(|s|, p + |data|)] == Spliced(s, p, data)
  {
    assert forall k :: 0 <= k < |s| ==> block[k] == block[..|s|][k];
  }

  class AutoBuffer<T(0)> {
    var parray_: array<T>
    var pos_: nat
    var length_: nat
    const zero: T
    const unit: nat

    ghost predicate Valid()
      reads this
    {
      pos_ <= length_ <= parray_.Length && unit > 0
    }

    ghost function Contents(): (s: seq<T>)
      requires Valid()
      reads this, parray_
      ensures |s| == length_
    {
      parray_[..length_]
    }

    /** What stands in the block behind the contents. */
    ghost function Behind(): (s: seq<T>)
      requires Valid()
      reads this, parray_
    {
      parray_[length_..]
    }

    /** A block made large enough: whole units, with zeros in what is new. */
    function Grown(block: seq<T>, len: nat): (s: seq<T>)
      requires unit > 0
      ensures len <= |s|
    {
      if len <= |block| then block else
        RoundUp(len, unit);
        block + Zeros((len + unit - 1) / unit * unit - |block|)
    }

    function Zeros(n: nat): (s: seq<T>)
      ensures |s| == n && forall k :: 0 <= k < n ==> s[k] == zero
    {
      seq(n, _ => zero)
    }

    /** As few whole units as hold the length asked for, unless the block is that large already. */
    lemma GrownIsLeast(block: seq<T>, len: nat) returns (units: nat)
      requires unit > 0
      ensures var s := Grown(block, len);
              if len <= |block| then s == block
              else
                && |s| == units * unit && len <= |s| < len + unit && s[..|block|] == block
                && forall k :: |block| <= k < |s| ==> s[k] == zero
    {
      units := (len + unit - 1) / unit;
      if len > |block| {
        RoundUp(len, unit);
        var s := Grown(block, len);
        assert s[..|block|] == block;
      }
    }

    constructor (zero: T, unit: nat)
      requires unit > 0
      ensures Valid() && fresh(parray_)
      ensures Contents() == [] && pos_ == 0 && this.zero == zero && this.unit == unit
    {
      parray_ := new T[0];
      pos_, length_ := 0, 0;
      this.zero, this.unit := zero, unit;
    }

    method FitSize(len: nat)
      requires Valid()
      modifies `parray_
      ensures Valid() && len <= parray_.Length
      ensures parray_ == old(parray_) || fresh(parray_)
      ensures parray_ == old(parray_) <==> len <= old(parray_.Length)
      ensures parray_[..] == Grown(old(parray_[..]), len)
    {
      if len > parray_.Length {
        var size := (len + unit - 1) / unit * unit;
        RoundUp(len, unit);
        var a := new T[size];
        forall k | 0 <= k < size {
          a[k] := if k < parray_.Length then parray_[k] else zero;
        }
        parray_ := a;
        assert parray_[..] == Grown(old(parray_[..]), len);
      }
    }

    method AllocWrite(n: nat, changeLength: bool)
      requires Valid()
      modifies `parray_, `length_
      ensures Valid() && (parray_ == old(parray_) || fresh(parray_))
      ensures pos_ + n <= parray_.Length
      ensures length_ == if changeLength then Max(pos_ + n, old(length_)) else old(length_)
      ensures Contents()[..old(length_)] == old(Contents())
      ensures parray_[..] == Grown(old(parray_[..]), pos_ + n)
    {
      FitSize(pos_ + n);
      if changeLength {
        length_ := Max(pos_ + n, length_);
      }
    }

    method WriteAt(pos: nat, data: seq<T>)
      requires Valid() && pos <= length_
      modifies `parray_, `length_, parray_
      ensures Valid() && (parray_ == old(parray_) || fresh(parray_))
      ensures Contents() == Spliced(old(Contents()), pos, data)
      ensures parray_[..] == Spliced(Grown(old(parray_[..]), pos + |data|), pos, data)
    {
      FitSize(pos + |data|);
      ghost var grown := parray_[..];
      length_ := Max(pos + |data|, length_);
      forall k | 0 <= k < |data| {
        parray_[pos + k] := data[k];
      }
      assert parray_[..] == Spliced(grown, pos, data);
      SplicedPrefix(grown, old(Contents()), pos, data);
    }

    method Write(data: seq<T>)
      requires Valid()
      modifies this, parray_
      ensures Valid() && (parray_ == old(parray_) || fresh(parray_))
      ensures Contents() == Spliced(old(Contents()), old(pos_), data)
      ensures parray_[..] == Spliced(Grown(old(parray_[..]), old(pos_) + |data|), old(pos_), data)
      ensures pos_ == old(pos_) + |data|
    {
      WriteAt(pos_, data);
      Seek(|data|, SeekCur);
    }

    method Seek(offset: int, origin: Origin)
      requires Valid()
      modifies `pos_
      ensures Valid()
      ensures var target := match origin { case SeekStart => offset
                                           case SeekCur => old(pos_) + offset
                                           case SeekEnd => length_ + offset };
              pos_ == Max(0, Min(target, length_))
    {
      var target: int;
      match origin {
        case SeekStart => target := offset;
        case SeekCur => target := pos_ + offset;
        case SeekEnd => target := length_ + offset;
      }
      if target < 0 { target := 0; }
      if target > length_ { target := length_; }
      pos_ := target;
    }

    method SetLength(pos: nat, length: nat)
      requires Valid() && pos <= length <= parray_.Length
      modifies `pos_, `length_
      ensures Valid() && pos_ == pos && length_ == length
    {
      length_, pos_ := length, Min(pos_, length);
      Seek(pos, SeekStart);
    }

    /** Reads at the current position and moves past what was read. */
    method Read(n: nat) returns (data: seq<T>)
      requires Valid()
      modifies `pos_
      ensures Valid() && pos_ == Min(old(pos_) + n, length_)
      ensures data == Contents()[old(pos_)..pos_]
    {
      var readlen := Min(length_ - pos_, n);
      data := parray_[pos_..pos_ + readlen];
      assert data == Contents()[pos_..pos_ + readlen];
      Seek(readlen, SeekCur);
    }

    /** Opens a zeroed gap in front. */
    method MoveUp(distance: nat)
      requires Valid()
      modifies this, parray_
      ensures Valid() && (parray_ == old(parray_) || fresh(parray_))
      ensures Contents() == Zeros(distance) + old(Contents()) && pos_ == old(pos_) + distance
    {
      ghost var was := Contents();
      FitSize(length_ + distance);
      assert forall k :: 0 <= k < length_ ==> parray_[k] == was[k];
      forall k | 0 <= k < length_ {
        parray_[k + distance] := parray_[k];
      }
      forall k | 0 <= k < distance {
        parray_[k] := zero;
      }
      assert forall k :: distance <= k < distance + length_ ==> parray_[k] == was[k - distance];
      SetLength(pos_ + distance, length_ + distance);
      GapInFront(was, distance);
    }

    lemma GapInFront(was: seq<T>, distance: nat)
      requires Valid() && length_ == distance + |was|
      requires forall k :: 0 <= k < distance ==> parray_[k] == zero
      requires forall k :: distance <= k < length_ ==> parray_[k] == was[k - distance]
      ensures Contents() == Zeros(distance) + was
    {
    }

    /** Drops a prefix: the rest is copied to the front, and all behind it stays. */
    method MoveDown(distance: nat)
      requires Valid()
      modifies this, parray_
      ensures Valid() && parray_ == old(parray_)
      ensures var n := Min(distance, old(length_));
              Contents() == old(Contents())[n..] && pos_ == Max(0, old(pos_) - n)
              && Behind() == old(parray_[..])[old(length_) - n..]
    {
      var n := Min(distance, length_);
      ghost var was := Contents();
      forall k | 0 <= k < length_ - n {
        parray_[k] := parray_[k + n];
      }
      SetLength(if n < pos_ then pos_ - n else 0, length_ - n);
      assert Contents() == was[n..];
    }

    method Move(distance: int)
      requires Valid()
      modifies this, parray_
      ensures Valid() && (parray_ == old(parray_) || fresh(parray_))
      ensures distance > 0 ==> Contents() == Zeros(distance) + old(Contents()) && pos_ == old(pos_) + distance
      ensures distance <= 0 ==> var n := Min(-distance, old(length_));
                                Contents() == old(Contents())[n..] && pos_ == Max(0, old(pos_) - n)
                                && Behind() == old(parray_[..])[old(length_) - n..]
    {
      if distance > 0 {
        MoveUp(distance);
      } else {
        MoveDown(-distance);
      }
    }

    method Reset()
      requires Valid()
      modifies this
      ensures Valid() && fresh(parray_) && Contents() == [] && pos_ == 0
    {
      parray_ := new T[0];
      pos_, length_ := 0, 0;
    }
  }

  lemma RoundUp(len: nat, unit: nat)
    requires unit > 0
    ensures len <= (len + unit - 1) / unit * unit < len + unit
  {
    var q, r := (len + unit - 1) / unit, (len + unit - 1) % unit;
    assert len + unit - 1 == q * unit + r;
  }
}
