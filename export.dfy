/** Post-processing of the canvas export of the dithered path: the export
    buffer's last byte is overwritten with NUL and the buffer is then read as
    a NUL-terminated C string. */
module Export {
  import opened Raster

  const Nul: byte := 0

  ghost predicate NoNul(s: seq<byte>)
  {
    forall k :: 0 <= k < |s| ==> s[k] != Nul
  }

  /** The C string stored at the start of `s`: every byte before the first
      NUL, or all of `s` when it holds none. This is the text
      `cstring_to_text` copies. */
  function CString(s: seq<byte>): (t: seq<byte>)
    ensures t <= s
    ensures NoNul(t)
    ensures |t| < |s| ==> s[|t|] == Nul
  {
    if s == [] || s[0] == Nul then [] else [s[0]] + CString(s[1..])
  }

  /** The text made from an export buffer of `len >= 1` bytes: the buffer with
      its last byte replaced by NUL, read as a C string. It never includes the
      last byte, and it is exactly the first `len - 1` bytes when none of them
      is NUL; an earlier NUL cuts it short there. */
  function ExportText(buffer: seq<byte>): (t: seq<byte>)
    requires |buffer| >= 1
    ensures t <= buffer[..|buffer| - 1]
    ensures NoNul(t)
    ensures NoNul(buffer[..|buffer| - 1]) ==> t == buffer[..|buffer| - 1]
    ensures |t| < |buffer| - 1 ==> buffer[|t|] == Nul
  {
    var terminated := buffer[|buffer| - 1 := Nul];
    var t := CString(terminated);
    assert terminated == buffer[..|buffer| - 1] + [Nul];
    CStringTerminated(buffer[..|buffer| - 1]);
    t
  }

  /** Reading `p + [NUL]` as a C string is reading `p` as one. */
  lemma {:induction false} CStringTerminated(p: seq<byte>)
    ensures CString(p + [Nul]) == CString(p)
  {
    if p != [] && p[0] != Nul {
      assert (p + [Nul])[1..] == p[1..] + [Nul];
      CStringTerminated(p[1..]);
    }
  }

  /** `buffer[len - 1] = '\0'` followed by `cstring_to_text(buffer)`. */
  method StripTerminator(buffer: array<byte>) returns (text: seq<byte>)
    requires buffer.Length >= 1
    modifies buffer
    ensures buffer[..] == old(buffer[..])[buffer.Length - 1 := Nul]
    ensures text == ExportText(old(buffer[..]))
  {
    buffer[buffer.Length - 1] := Nul;
    text := CString(buffer[..]);
  }
}
