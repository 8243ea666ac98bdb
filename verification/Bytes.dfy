/** Bytes, C strings and the small datatypes that the other modules share. */
module Bytes {
  type Byte = b: int | 0 <= b < 256

  datatype Option<+T> = None | Some(value: T)

  /** True when `s` can be stored as a C string without being cut short. */
  ghost predicate NoNul(s: seq<Byte>) {
    forall i | 0 <= i < |s| :: s[i] != 0
  }

  /** What C code sees when it treats `s` as a NUL-terminated string. A missing NUL is supplied by the
      reader, which always allocates one byte more than the payload and zeroes it. */
  function CString(s: seq<Byte>): (r: seq<Byte>)
    ensures NoNul(r) && r <= s
    ensures |r| < |s| ==> s[|r|] == 0
  {
    if s == [] || s[0] == 0 then [] else [s[0]] + CString(s[1..])
  }

  /** Terminating a NUL-free string and reading it back as a C string is the identity. */
  lemma {:induction false} CStringOfTerminated(s: seq<Byte>, rest: seq<Byte>)
    requires NoNul(s)
    ensures CString(s + [0] + rest) == s
  {
    if s == [] {
      assert (s + [0] + rest)[0] == 0;
    } else {
      CStringOfTerminated(s[1..], rest);
      assert s[0] != 0;
      assert (s + [0] + rest)[1..] == s[1..] + [0] + rest;
      assert s == [s[0]] + s[1..];
    }
  }
}
