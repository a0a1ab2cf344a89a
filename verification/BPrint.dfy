/** The growing print buffer of libsubtitle/utils/bprint.c, below the bound where its length would saturate. */
module BPrints {
  import opened Bytes
  import opened JsonTexts

  const UINT_MAX := 0xFFFF_FFFF

  /** What is left of the structure behind its last field, on 32-bit and 64-bit hosts alike. */
  const SIZE_AUTO := 4

  /** The longest prefix of t that fits a buffer of that size together with a terminator. */
  function Fitting(t: seq<byte>, size: nat): seq<byte>
    requires size > 0
  {
    t[..Min(|t|, size - 1)]
  }

  /** av_bprint_alloc's new size for a buffer that is not yet at its maximum. */
  function Grown(size: nat, sizeMax: nat, minSize: nat): (n: nat)
    requires size < sizeMax
    ensures size <= n <= sizeMax
    ensures n >= minSize || n == sizeMax
  {
    var doubled := if size > sizeMax / 2 then sizeMax else size * 2;
    if doubled < minSize then Min(sizeMax, minSize) else doubled
  }

  class PrintBuf {
    var str: array<byte>
    var len: nat
    var size: nat
    var sizeMax: nat
    /** Whether str has left the structure's own few bytes. */
    var moved: bool
    /** Everything printed so far, whether it was stored or not. */
    ghost var text: seq<byte>

    /** All of Valid but the terminator. */
    ghost predicate Base()
      reads this, str
    {
      && size <= sizeMax <= UINT_MAX && size <= str.Length
      && len == |text| && len + 6 <= UINT_MAX
      && (size > 0 ==> str[..Min(len, size - 1)] == Fitting(text, size))
    }

    ghost predicate Valid()
      reads this, str
    {
      Base() && (size > 0 ==> HoldsAt(str[..], 0, Fitting(text, size)))
    }

    /** Nothing was cut off. */
    predicate IsComplete()
      reads this
    {
      len < size
    }

    /** The length tells exactly whether the stored string is everything printed. */
    lemma CompleteExactly()
      requires Valid()
      ensures IsComplete() <==> size > 0 && Fitting(text, size) == text
      ensures IsComplete() ==> HoldsAt(str[..], 0, text)
      ensures size > 0 && !IsComplete() ==> HoldsAt(str[..], 0, text[..size - 1])
    {
      if IsComplete() {
        assert text[..len] == text;
      } else if size > 0 {
        assert |Fitting(text, size)| == size - 1;
      }
    }

    constructor (sizeInit: nat, sizeMax0: nat, memory: bool)
      requires sizeInit <= UINT_MAX && sizeMax0 <= UINT_MAX
      ensures Valid() && text == [] && len == 0 && fresh(str)
      ensures sizeMax == if sizeMax0 == 1 then 4 else sizeMax0
      ensures sizeInit <= size || size == sizeMax || !memory
    {
      str := new byte[SIZE_AUTO];
      len := 0;
      text := [];
      moved := false;
      sizeMax := if sizeMax0 == 1 then SIZE_AUTO else sizeMax0;
      size := Min(SIZE_AUTO, if sizeMax0 == 1 then SIZE_AUTO else sizeMax0);
      new;
      str[0] := 0;
      if sizeInit > size {
        var ok := Alloc(sizeInit - 1, memory);
        assert size > 0 ==> str[..1][0] == 0;
      }
    }

    /** av_bprint_alloc: false when the buffer cannot grow. */
    method Alloc(room: nat, memory: bool) returns (ok: bool)
      requires Base() && room <= UINT_MAX
      modifies this`str, this`size, this`moved
      ensures Base() && text == old(text) && len == old(len) && sizeMax == old(sizeMax)
      ensures ok <==> old(size) != sizeMax && old(len) < old(size) && memory
      ensures ok ==> fresh(str) && (size >= len + 1 + Min(UINT_MAX - len - 1, room) || size == sizeMax)
      ensures ok ==> old(size) <= size && str[..len + 1] == old(str[..len + 1])
      ensures ok ==>
                var need := len + 1 + Min(0xFFFF_FFFF - len - 1, room);
                size == Min(sizeMax, if 2 * old(size) < need then need else 2 * old(size))
      ensures !ok ==> str == old(str) && size == old(size)
    {
      if size == sizeMax || !IsComplete() {
        return false;
      }
      var minSize := len + 1 + Min(UINT_MAX - len - 1, room);
      var newSize := Grown(size, sizeMax, minSize);
      if !memory {
        return false;
      }
      var newStr := new byte[newSize];
      // realloc keeps what was there, memcpy brings the text and its terminator along
      var kept := if moved then str[..size] else str[..len + 1];
      CopyBytes(newStr, 0, kept);
      assert newStr[..len + 1] == kept[..len + 1] == str[..len + 1];
      assert newStr[..len] == newStr[..len + 1][..len] && str[..len] == str[..len + 1][..len];
      assert Fitting(text, size) == text == Fitting(text, newSize);
      str, size, moved := newStr, newSize, true;
      ok := true;
    }

    function Room(): nat
      reads this
    {
      size - Min(len, size)
    }

    /** vsnprintf into the room that is left: all of t or what fits, and a terminator. */
    method Vsnprintf(t: seq<byte>)
      requires Base() && (size > 0 && len >= size ==> HoldsAt(str[..], 0, Fitting(text, size)))
      modifies str
      ensures Base()
      ensures size > 0 ==> HoldsAt(str[..], 0, Fitting(text + t, size))
    {
      var room := Room();
      if room > 0 {
        var n := Min(|t|, room - 1);
        assert Fitting(text, size) == text;
        var next := Emit(str, len, t[..n]);
        str[next] := 0;
        assert str[..next] == text + t[..n];
        assert Fitting(text + t, size) == text + t[..n];
        assert str[..][0..next] == str[..next];
        assert str[..len] == str[..next][..len] == text;
      } else if size > 0 {
        assert Fitting(text + t, size) == Fitting(text, size);
      }
    }

    /** av_bprintf with the formatted text given. The loop ends because an allocation fails, makes room, or
        reaches the maximum. */
    method Printf(t: seq<byte>, memory: bool)
      requires Valid() && len + |t| + 6 <= UINT_MAX
      modifies this, str
      ensures Valid() && text == old(text) + t && sizeMax == old(sizeMax)
      ensures str == old(str) || fresh(str)
      ensures memory && old(IsComplete()) ==> IsComplete() || size == sizeMax
      ensures old(size) <= size && (!old(IsComplete()) ==> size == old(size) && !IsComplete())
    {
      hide HoldsAt, Fitting;
      ghost var tries := 1;
      while true
        invariant Base() && text == old(text) && len == old(len) && sizeMax == old(sizeMax)
        invariant size > 0 && len >= size ==> HoldsAt(str[..], 0, Fitting(text, size))
        invariant str == old(str) || fresh(str)
        invariant old(size) <= size && (!old(IsComplete()) ==> size == old(size))
        invariant tries == 1 || (tries == 0 && (len + |t| < size || size == sizeMax))
        decreases tries
      {
        var room := Room();
        Vsnprintf(t);
        FullStays(t);
        if |t| == 0 {
          assert text + t == text;
          return;
        }
        if |t| < room {
          break;
        }
        var ok := Alloc(|t|, memory);
        if !ok {
          break;
        }
        tries := tries - 1;
      }
      Grow(t);
    }

    /** A full buffer holds the same prefix whatever else is printed. */
    lemma FullStays(t: seq<byte>)
      requires Base()
      ensures size > 0 && len >= size ==> Fitting(text + t, size) == Fitting(text, size)
      ensures |t| < Room() <==> len + |t| < size
    {
    }

    /** av_bprint_grow, the text being written already. */
    method Grow(t: seq<byte>)
      requires size <= sizeMax <= UINT_MAX && size <= str.Length && len == |text| && len + |t| + 6 <= UINT_MAX
      requires size > 0 ==> HoldsAt(str[..], 0, Fitting(text + t, size))
      modifies this`len, this`text, str
      ensures Valid() && text == old(text) + t && len == old(len) + |t|
    {
      len := len + Min(|t|, UINT_MAX - 5 - len);
      text := text + t;
      if size > 0 {
        assert str[..Min(len, size - 1)] == str[..][0..Min(len, size - 1)];
        str[Min(len, size - 1)] := 0;
      }
    }
  }
}
