/** The fixed buffer of src/util/PreallocatedBuffer.cpp: appending past its end sets a sticky
    overflow flag and every later append is refused. */
module Buffers {

  class PreallocatedBuffer {
    /** Null when the allocation failed. */
    const data: array?<char>
    var size: nat
    var overflow: bool

    /** Everything that callers have asked to append since the last reset. */
    ghost var intended: string
    /** The overflow happened in a formatted append that still had room for part of its text. */
    ghost var cut: bool

    ghost predicate Valid()
      reads this, data
    {
      && (data == null ==> size == 0)
      && (data != null ==> size <= data.Length)
      && (cut ==> overflow && data != null && size == data.Length && size > 0)
      && (if cut
          then data[size - 1] == '\0' && data[..size - 1] < intended && intended[size - 1] != '\0'
          else Contents() <= intended)
      && (data != null && !overflow ==> Contents() == intended)
    }

    ghost function Contents(): string
      requires data == null ==> size == 0
      requires data != null ==> size <= data.Length
      reads this, data
    {
      if data == null then [] else data[..size]
    }

    /** Allocates the storage, which `granted` says whether malloc grants. */
    constructor Reserve(bytes: nat, granted: bool)
      ensures Valid() && intended == [] && Contents() == []
      ensures overflow == !granted && (data == null <==> !granted)
      ensures data != null ==> data.Length == bytes && fresh(data)
    {
      if granted { data := new char[bytes]; } else { data := null; }
      size, overflow := 0, !granted;
      intended, cut := [], false;
    }

    method Reset()
      requires Valid()
      modifies this
      ensures Valid() && intended == [] && Contents() == [] && !overflow
    {
      size, overflow := 0, false;
      intended, cut := [], false;
    }

    /** Copies characters behind the contents without making them part of it. */
    method Store(s: string)
      requires Valid() && data != null && !overflow && size + |s| <= data.Length
      modifies data
      ensures Valid() && data[..size + |s|] == old(data[..size]) + s
    {
      ghost var before := data[..size];
      for i := 0 to |s|
        invariant data[..size + i] == before + s[..i]
      {
        data[size + i] := s[i];
        assert data[..size + i + 1] == data[..size + i] + [s[i]];
      }
      assert s[..|s|] == s;
      assert data[..size] == data[..size + |s|][..size] == before;
    }

    method Append(s: string) returns (ok: bool)
      requires Valid()
      modifies this, data
      ensures Valid() && intended == old(intended) + s && cut == old(cut)
      ensures ok <==> !old(overflow) && data != null && old(size) + |s| <= data.Length
      ensures overflow == (old(overflow) || (data != null && old(size) + |s| > data.Length))
      ensures Contents() == if ok then old(Contents()) + s else old(Contents())
    {
      if overflow || data == null {
        intended := intended + s;
        return false;
      }
      if size + |s| > data.Length {
        overflow := true;
        intended := intended + s;
        return false;
      }
      Store(s);
      size := size + |s|;
      intended := intended + s;
      ok := true;
    }

    method AppendChar(c: char) returns (ok: bool)
      requires Valid()
      modifies this, data
      ensures Valid() && intended == old(intended) + [c] && cut == old(cut)
      ensures ok <==> !old(overflow) && data != null && old(size) < data.Length
      ensures overflow == (old(overflow) || (data != null && old(size) == data.Length))
      ensures Contents() == if ok then old(Contents()) + [c] else old(Contents())
    {
      intended := intended + [c];
      if overflow || data == null { return false; }
      if size + 1 > data.Length {
        overflow := true;
        return false;
      }
      data[size] := c;
      size := size + 1;
      assert data[..size] == data[..size - 1] + [c];
      ok := true;
    }

    /** A formatted append; `text` is what the format expands to.  vsnprintf ends its output with
        NUL, so a text that exactly fills the room is refused, and what is left of a refused text
        ends in a NUL byte. */
    method Appendf(text: string) returns (ok: bool)
      requires Valid() && '\0' !in text
      modifies this, data
      ensures Valid() && intended == old(intended) + text
      ensures ok <==> !old(overflow) && data != null && old(size) + |text| < data.Length
      ensures overflow == (old(overflow) || (data != null && old(size) + |text| >= data.Length))
      ensures ok ==> Contents() == old(Contents()) + text
      ensures cut <==> old(cut) || (!old(overflow) && overflow && old(size) < data.Length)
    {
      if overflow || data == null {
        intended := intended + text;
        return false;
      }
      var remaining := data.Length - size;
      if |text| < remaining {
        Store(text);
        data[size + |text|] := '\0';
        assert data[..size + |text|] == old(Contents()) + text;
        size := size + |text|;
        intended := intended + text;
        return true;
      }
      if remaining > 0 {
        CutShort(text);
      } else {
        overflow := true;
        intended := intended + text;
      }
      ok := false;
    }

    /** The part of a formatted text that fits, and the NUL that ends it. */
    method CutShort(text: string)
      requires Valid() && data != null && !overflow && size < data.Length && '\0' !in text
      requires size + |text| >= data.Length
      modifies this, data
      ensures Valid() && cut && intended == old(intended) + text
    {
      var n := data.Length - size - 1;
      assert text[n] in text;
      Store(text[..n]);
      data[data.Length - 1] := '\0';
      ghost var was := intended;
      assert data[..data.Length - 1] == was + text[..n];
      size := data.Length;
      overflow, cut := true, true;
      intended := intended + text;
      assert intended[size - 1] == text[n];
    }
  }

  /** What a caller may rely on: the contents are a prefix of what was intended, except exactly
      when a formatted append was cut short, and then all but the last byte are. */
  lemma ContentsArePrefix(b: PreallocatedBuffer)
    requires b.Valid()
    ensures b.Contents() <= b.intended <==> !b.cut
    ensures b.cut ==> b.Contents()[..b.size - 1] <= b.intended && b.Contents()[b.size - 1] == '\0'
    ensures b.data != null && !b.overflow ==> b.Contents() == b.intended
  {
    if b.cut {
      assert b.Contents()[b.size - 1] == '\0';
    }
  }
}
