/** The password buffer of password.c: a byte array updated in place that refines a stack of code points. */
module PasswordBuffer {
  import opened Bytes
  import opened Utf8

  /** The stack after a key with code point `ch`, given a buffer of `cap` bytes: a character that would
      leave no room for the terminator and one spare byte is dropped silently. */
  function Pushed(cps: seq<Codepoint>, ch: Codepoint, cap: nat): (r: seq<Codepoint>)
    ensures |EncodeAll(cps)| + 1 < cap ==> |EncodeAll(r)| + 1 < cap
    ensures r == cps || r == cps + [ch]
  {
    EncodeAllPush(cps, ch);
    if |EncodeAll(cps)| + ChSize(ch) + 1 >= cap then cps else cps + [ch]
  }

  function Popped(cps: seq<Codepoint>): (r: seq<Codepoint>)
    ensures |EncodeAll(r)| <= |EncodeAll(cps)|
  {
    if cps == [] then [] else cps[..|cps| - 1]
  }

  /** strchr(s, '\0'), as an index. */
  method FirstNul(buf: array<Byte>) returns (n: nat)
    requires exists k :: 0 <= k < buf.Length && buf[k] == 0
    ensures n < buf.Length && buf[n] == 0 && forall i | 0 <= i < n :: buf[i] != 0
  {
    n := 0;
    while buf[n] != 0
      invariant n < buf.Length && forall i | 0 <= i < n :: buf[i] != 0
      invariant exists k :: n <= k < buf.Length && buf[k] == 0
      decreases buf.Length - n
    {
      n := n + 1;
    }
  }

  ghost predicate IsFirstNul(buf: array<Byte>, n: int)
    reads buf
  {
    0 <= n < buf.Length && buf[n] == 0 && forall i | 0 <= i < n :: buf[i] != 0
  }

  /** utf8_last_size: from the first NUL backwards to the nearest lead byte. */
  method ScanLastSize(buf: array<Byte>) returns (size: nat)
    requires exists k :: 0 <= k < buf.Length && buf[k] == 0
    ensures exists n :: IsFirstNul(buf, n) && size == LastSize(buf[..n])
  {
    var n := FirstNul(buf);
    var pos := n;
    size := 0;
    while pos > 0
      invariant 0 <= pos <= n && size == n - pos
      invariant LastSize(buf[..n]) == if LastSize(buf[..pos]) == 0 then 0 else size + LastSize(buf[..pos])
    {
      assert buf[..pos][..pos - 1] == buf[..pos - 1];
      pos, size := pos - 1, size + 1;
      if !IsContinuation(buf[pos]) {
        return;
      }
    }
    size := 0;
  }

  class Password {
    const buffer: array<Byte>
    var len: nat
    ghost var cps: seq<Codepoint>

    /** The buffer holds the encodings of the stack back to back, its first NUL sits at `len`, and one
        byte beyond the terminator stays free. */
    ghost predicate Valid()
      reads this, buffer
    {
      && len + 1 < buffer.Length
      && NoZero(cps)
      && buffer[..len] == EncodeAll(cps)
      && buffer[len] == 0
    }

    lemma FirstNulIsLen()
      requires Valid()
      ensures forall n :: IsFirstNul(buffer, n) <==> n == len
    {
      EncodeAllNoNul(cps);
      forall i | 0 <= i < len ensures buffer[i] != 0 {
        assert buffer[i] == EncodeAll(cps)[i];
      }
    }

    constructor (bufferLen: nat)
      requires bufferLen >= 2
      ensures Valid() && cps == [] && len == 0 && buffer.Length == bufferLen && fresh(buffer)
    {
      buffer := new Byte[bufferLen];
      len, cps := 0, [];
      new;
      buffer[0] := 0;
    }

    /** clear_password_buffer: wipes every byte, not only the used ones. */
    method Clear()
      requires Valid()
      modifies this, buffer
      ensures Valid() && cps == [] && len == 0
      ensures forall i | 0 <= i < buffer.Length :: buffer[i] == 0
    {
      for i := 0 to buffer.Length
        invariant forall j | 0 <= j < i :: buffer[j] == 0
      {
        buffer[i] := 0;
      }
      len, cps := 0, [];
    }

    /** backspace: removes exactly the last code point, and reports whether there was one. */
    method Backspace() returns (removed: bool)
      requires Valid()
      modifies this, buffer
      ensures Valid()
      ensures removed == (old(cps) != [])
      ensures cps == Popped(old(cps))
      ensures len == old(len) - if removed then ChSize(old(cps)[|old(cps)| - 1]) else 0
    {
      LenIsZeroIffEmpty();
      if len != 0 {
        LastCharacter();
        var size := ScanLastSize(buffer);
        ghost var kept := buffer[..len - size];
        len := len - size;
        buffer[len] := 0;
        assert buffer[..len] == kept;
        cps := Popped(cps);
        return true;
      }
      return false;
    }

    /** What the scan finds, and what it leaves. */
    lemma LastCharacter()
      requires Valid() && cps != []
      ensures forall n :: IsFirstNul(buffer, n) <==> n == len
      ensures LastSize(buffer[..len]) == ChSize(cps[|cps| - 1])
      ensures buffer[..len - LastSize(buffer[..len])] == EncodeAll(Popped(cps))
    {
      FirstNulIsLen();
      LastSizeOfEncoded(cps);
      var bytes := buffer[..len];
      assert bytes[..len - ChSize(cps[|cps| - 1])] == EncodeAll(Popped(cps));
    }

    lemma LenIsZeroIffEmpty()
      requires Valid()
      ensures len == 0 <==> cps == []
    {
      if cps != [] {
        assert |EncodeAll(cps)| >= |Encode(cps[|cps| - 1])|;
      }
    }

    /** append_ch: called for non-zero code points only. */
    method Append(ch: Codepoint)
      requires Valid() && ch != 0
      modifies this, buffer
      ensures Valid()
      ensures cps == Pushed(old(cps), ch, buffer.Length)
    {
      if len + ChSize(ch) + 1 >= buffer.Length {
        return;
      }
      Store(ch);
    }

    method Store(ch: Codepoint)
      requires Valid() && ch != 0 && len + ChSize(ch) + 1 < buffer.Length
      modifies this, buffer
      ensures Valid() && cps == old(cps) + [ch]
    {
      ghost var before := buffer[..len];
      var size := EncodeAt(buffer, len, ch);
      ghost var grown := buffer[..len + size];
      assert grown == before + Encode(ch) by {
        assert grown[..len] == before;
        assert grown[len..] == buffer[len..len + size];
      }
      buffer[len + size] := 0;
      assert buffer[..len + size] == grown;
      EncodeAllPush(cps, ch);
      len, cps := len + size, cps + [ch];
    }
  }
}
