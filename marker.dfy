/**
 * The reply markers the detection loops look for.
 *
 * smaller_kitty.c and src/kitty.rs look for the three bytes `_Gi` with a
 * hand-written scan whose bound is one short: it only tries starting
 * positions `i < total - 3`, so a `_Gi` that ends at the last byte received
 * is not seen. kitty.c looks for the four bytes `_Gi=` with `memmem` over
 * everything received.
 */
module Marker {
  import opened Common

  /** The bytes `_`, `G`, `i` and `=`. */
  const Underscore: byte := 0x5F
  const LetterG: byte := 0x47
  const LetterI: byte := 0x69
  const EqualsSign: byte := 0x3D

  /** `_Gi` starts at position `i` of `s`. */
  predicate MarkerAt(s: seq<byte>, i: int)
  {
    0 <= i && i + 3 <= |s| && s[i] == Underscore && s[i + 1] == LetterG && s[i + 2] == LetterI
  }

  /** `_Gi` occurs somewhere in `s`. */
  predicate HasMarker(s: seq<byte>)
  {
    exists i | 0 <= i < |s| :: MarkerAt(s, i)
  }

  /** What the scans of smaller_kitty.c and src/kitty.rs report: a `_Gi` starting before `|s| - 3`. */
  predicate ScanFinds(s: seq<byte>)
  {
    exists i | 0 <= i < |s| - 3 :: MarkerAt(s, i)
  }

  /**
   * The scan of smaller_kitty.c (and, with `saturating_sub`, of src/kitty.rs):
   * tries every `i < total - 3` and stops at the first `_Gi`.
   */
  method ScanForMarker(buf: array<byte>, total: int) returns (found: bool)
    requires 0 <= total <= buf.Length
    ensures found == ScanFinds(buf[..total])
  {
    var i := 0;
    while i < total - 3
      invariant 0 <= i && (i <= total - 3 || i == 0)
      invariant forall k | 0 <= k < i :: !MarkerAt(buf[..total], k)
    {
      if buf[i] == Underscore && buf[i + 1] == LetterG && buf[i + 2] == LetterI {
        assert MarkerAt(buf[..total], i);
        return true;
      }
      i := i + 1;
    }
    return false;
  }

  /** The scan with the bound the loop evidently means: every `i` with `i + 2 < total`. */
  method ScanForMarkerFixed(buf: array<byte>, total: int) returns (found: bool)
    requires 0 <= total <= buf.Length
    ensures found == HasMarker(buf[..total])
  {
    var i := 0;
    while i + 2 < total
      invariant 0 <= i && (i + 2 <= total || i == 0)
      invariant forall k | 0 <= k < i :: !MarkerAt(buf[..total], k)
    {
      if buf[i] == Underscore && buf[i + 1] == LetterG && buf[i + 2] == LetterI {
        assert MarkerAt(buf[..total], i);
        return true;
      }
      i := i + 1;
    }
    return false;
  }

  /** The scan sees exactly the markers that lie before the last byte received. */
  lemma ScanMissesOnlyTheEnd(s: seq<byte>)
    ensures ScanFinds(s) <==> |s| >= 1 && HasMarker(s[..|s| - 1])
  {
    if |s| >= 1 {
      var t := s[..|s| - 1];
      forall i | 0 <= i < |t|
        ensures MarkerAt(t, i) <==> i < |s| - 3 && MarkerAt(s, i)
      {
        if i + 3 <= |t| {
          assert t[i] == s[i] && t[i + 1] == s[i + 1] && t[i + 2] == s[i + 2];
        }
      }
      if ScanFinds(s) {
        var i :| 0 <= i < |s| - 3 && MarkerAt(s, i);
        assert MarkerAt(t, i);
      }
    }
  }

  /** Whatever the scan finds is a real marker. */
  lemma ScanFindsOnlyMarkers(s: seq<byte>)
    ensures ScanFinds(s) ==> HasMarker(s)
  {
  }

  /** As written: three bytes `_Gi` hold a marker that the scan does not report. */
  lemma TrailingMarkerMissed()
    ensures var s := [Underscore, LetterG, LetterI];
      HasMarker(s) && !ScanFinds(s)
  {
    var s := [Underscore, LetterG, LetterI];
    assert MarkerAt(s, 0);
  }

  /** `_Gi=` starts at position `i` of `s`. */
  predicate ReplyAt(s: seq<byte>, i: int)
  {
    MarkerAt(s, i) && i + 4 <= |s| && s[i + 3] == EqualsSign
  }

  /** `memmem(buf, total, "_Gi=", 4) != NULL`. */
  predicate ContainsReply(s: seq<byte>)
  {
    exists i | 0 <= i < |s| :: ReplyAt(s, i)
  }

  /** `memmem` finds `_Gi=` wherever it lies, the very end included. */
  lemma ReplyAtEndFound(s: seq<byte>)
    ensures ContainsReply(s + [Underscore, LetterG, LetterI, EqualsSign])
  {
    assert ReplyAt(s + [Underscore, LetterG, LetterI, EqualsSign], |s|);
  }

  /** kitty.c's marker is the longer one: it implies `_Gi`, and `_Gi` alone does not imply it. */
  lemma ReplyImpliesMarker(s: seq<byte>)
    ensures ContainsReply(s) ==> HasMarker(s)
    ensures var m := [Underscore, LetterG, LetterI]; HasMarker(m) && !ContainsReply(m)
  {
    assert MarkerAt([Underscore, LetterG, LetterI], 0);
  }

  /** Which scan a detection loop runs: the one in the source, or the one with the bound fixed. */
  datatype Scan = AsWritten | Fixed

  /** What the chosen scan reports on the bytes received so far. */
  predicate Sees(scan: Scan, s: seq<byte>)
  {
    if scan.AsWritten? then ScanFinds(s) else HasMarker(s)
  }

  /** The graphics query all three programs send: `ESC _Gi=31,s=1,v=1,a=q,t=d,f=24;AAAA ESC \`. */
  const Query: seq<byte> := [
    0x1B, 0x5F, 0x47, 0x69, 0x3D, 0x33, 0x31, 0x2C, 0x73, 0x3D, 0x31, 0x2C,
    0x76, 0x3D, 0x31, 0x2C, 0x61, 0x3D, 0x71, 0x2C, 0x74, 0x3D, 0x64, 0x2C,
    0x66, 0x3D, 0x32, 0x34, 0x3B, 0x41, 0x41, 0x41, 0x41, 0x1B, 0x5C]

  /** The query is a 35-byte APC string: `ESC _` ... `ESC \`, its command starting with `G`. */
  lemma QueryShape()
    ensures |Query| == 35
    ensures Query[..2] == [0x1B, 0x5F] && Query[2] == LetterG && Query[33..] == [0x1B, 0x5C]
  {
  }

  /** The reply of a terminal that supports the protocol: `ESC _Gi=31;OK ESC \`. */
  const OkReply: seq<byte> := [0x1B, 0x5F, 0x47, 0x69, 0x3D, 0x33, 0x31, 0x3B, 0x4F, 0x4B, 0x1B, 0x5C]

  /** Every scan recognises the reply of a supporting terminal. */
  lemma OkReplyRecognised()
    ensures ScanFinds(OkReply) && HasMarker(OkReply) && ContainsReply(OkReply)
  {
    assert ReplyAt(OkReply, 1);
  }
}
