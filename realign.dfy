/** The CRLF repair of the upstream `data` handler (server.js:58-77): a
    boundary delimiter must follow a CRLF (section 5.1.1 of RFC 2046); when the
    first `--<boundary>` of a chunk does not, one is inserted before it. */
module Realign {
  import opened Builtins

  const CR: byte := 0x0D
  const LF: byte := 0x0A

  /** `Buffer.from('--' + boundary)`: the bytes the handler searches for. */
  function Marker(boundary: string): (m: seq<byte>)
    ensures |m| >= 2 && m[0] == 0x2D && m[1] == 0x2D
    ensures m == [0x2D, 0x2D] + Utf8(boundary)
  {
    Utf8Append("--", boundary);
    Utf8("--" + boundary)
  }

  /** `lastByte2`, `lastByte1` after a chunk (server.js:76-77): the last two
      bytes, or nothing when the chunk is shorter than two bytes (an index
      out of range reads `undefined`, which the test `!= null` rejects). */
  function TailOf(data: seq<byte>): (t: Option<(byte, byte)>)
    ensures t.Some? <==> |data| >= 2
    ensures t.Some? ==> data[|data| - 2..] == [t.value.0, t.value.1]
  {
    if |data| < 2 then None else Some((data[|data| - 2], data[|data| - 1]))
  }

  /** The test of server.js:68 for a chunk whose first marker is at `p`: the
      marker opens the chunk and the previous chunk did not end in CRLF, or
      the marker stands at 2 or later and the two bytes before it are not CRLF.
      A marker at index 1 is never examined. */
  predicate MissingCrlf(tail: (byte, byte), chunk: seq<byte>, p: int)
    requires p <= |chunk|
  {
    (p == 0 && !(tail.0 == CR && tail.1 == LF))
    || (p > 1 && !(chunk[p - 2] == CR && chunk[p - 1] == LF))
  }

  /** The first marker's index, as `buff.indexOf('--' + boundary)` finds it. */
  function MarkerIndex(boundary: string, chunk: seq<byte>): (p: int)
    ensures p == -1 || OccursAt(chunk, Marker(boundary), p)
    ensures -1 <= p < |chunk|
  {
    IndexOf(chunk, Marker(boundary), 0)
  }

  /** The repair of server.js:64-74, with the slice after the marker taken at
      the marker's byte length: with no carried tail the chunk passes
      unchanged; otherwise, when the first marker lacks its CRLF, the chunk
      becomes the bytes before the marker, CRLF, and the rest, two bytes longer
      and otherwise unchanged. */
  function Repair(tail: Option<(byte, byte)>, boundary: string, chunk: seq<byte>): (r: seq<byte>)
    ensures var p := MarkerIndex(boundary, chunk);
            if tail.Some? && MissingCrlf(tail.value, chunk, p)
            then |r| == |chunk| + 2 && r[..p] == chunk[..p] && r[p..p + 2] == [CR, LF]
                 && r[p + 2..] == chunk[p..]
            else r == chunk
  {
    match tail
    case None => chunk
    case Some(t) =>
      var oldHeader := "--" + boundary;
      var p := IndexOf(chunk, Utf8(oldHeader), 0);
      if MissingCrlf(t, chunk, p) then
        Utf8Append("\r\n", oldHeader);
        assert chunk[p..] == Utf8(oldHeader) + chunk[p + |Utf8(oldHeader)|..];
        chunk[..p] + Utf8("\r\n" + oldHeader) + chunk[p + |Utf8(oldHeader)|..]
      else chunk
  }

  /** The repair exactly as server.js:69-72 writes it: the rest of the chunk is
      taken from `p + oldheader.length`, a count of UTF-16 code units, while the
      marker was found and is inserted as UTF-8 bytes. */
  function RepairAsWritten(tail: Option<(byte, byte)>, boundary: string, chunk: seq<byte>): (r: seq<byte>)
    ensures tail.None? ==> r == chunk
  {
    match tail
    case None => chunk
    case Some(t) =>
      var oldHeader := "--" + boundary;
      var p := IndexOf(chunk, Utf8(oldHeader), 0);
      if MissingCrlf(t, chunk, p) then
        Utf16NoLongerThanUtf8(oldHeader);
        chunk[..p] + Utf8("\r\n" + oldHeader) + chunk[p + Utf16Length(oldHeader)..]
      else chunk
  }

  /** For an ASCII boundary the two lengths agree and the code does what it
      means to. */
  lemma AsWrittenAgreesForAsciiBoundary(tail: Option<(byte, byte)>, boundary: string, chunk: seq<byte>)
    requires IsAscii(boundary)
    ensures RepairAsWritten(tail, boundary, chunk) == Repair(tail, boundary, chunk)
  {
    if tail.Some? {
      var oldHeader := "--" + boundary;
      assert IsAscii(oldHeader);
      Utf16NoLongerThanUtf8(oldHeader);
    }
  }

  /** When the repair fires, the code as written emits one extra byte for every
      byte the boundary's UTF-8 form has beyond its UTF-16 length: the tail of
      the marker is copied twice. */
  lemma AsWrittenRepeatsMarkerBytes(tail: Option<(byte, byte)>, boundary: string, chunk: seq<byte>)
    requires tail.Some? && MissingCrlf(tail.value, chunk, MarkerIndex(boundary, chunk))
    ensures |RepairAsWritten(tail, boundary, chunk)|
            == |Repair(tail, boundary, chunk)| + |Marker(boundary)| - Utf16Length("--" + boundary)
  {
    Utf16NoLongerThanUtf8("--" + boundary);
    Utf8Append("\r\n", "--" + boundary);
  }

  /** Whatever it repeats after, the code as written still puts CRLF and the
      whole marker at the first marker's index, so a viewer starting there is
      aligned as with the corrected repair. */
  lemma AsWrittenInsertsCrlfBeforeMarker(tail: Option<(byte, byte)>, boundary: string, chunk: seq<byte>)
    requires tail.Some? && MissingCrlf(tail.value, chunk, MarkerIndex(boundary, chunk))
    ensures var p := MarkerIndex(boundary, chunk);
            var r := RepairAsWritten(tail, boundary, chunk);
            var m := Marker(boundary);
            0 <= p && p + 2 + |m| <= |r| && r[..p] == chunk[..p] && r[p..p + 2 + |m|] == [CR, LF] + m
  {
    var p := MarkerIndex(boundary, chunk);
    var m := Marker(boundary);
    Utf16NoLongerThanUtf8("--" + boundary);
    Utf8Append("\r\n", "--" + boundary);
    assert Utf8("\r\n") == [CR, LF];
    assert "\r\n" + ("--" + boundary) == "\r\n--" + boundary;
  }

  /** The input that shows it: boundary `é` (U+00E9, two UTF-8 bytes, one
      UTF-16 unit) and the chunk `AA--é` after a chunk not ending in CRLF. */
  lemma AsWrittenDuplicatesByteForLatinBoundary(chunk: seq<byte>, tail: Option<(byte, byte)>)
    requires chunk == [0x41, 0x41, 0x2D, 0x2D, 0xC3, 0xA9] && tail == Some((0x41, 0x41))
    ensures Repair(tail, "\U{E9}", chunk) == [0x41, 0x41, CR, LF, 0x2D, 0x2D, 0xC3, 0xA9]
    ensures RepairAsWritten(tail, "\U{E9}", chunk) == [0x41, 0x41, CR, LF, 0x2D, 0x2D, 0xC3, 0xA9, 0xA9]
  {
    var m := Utf8("--\U{E9}");
    assert "--" + "\U{E9}" == "--\U{E9}";
    assert m == [0x2D, 0x2D, 0xC3, 0xA9];
    assert Utf16Length("--\U{E9}") == 3;
    assert chunk[0..4][0] != m[0] && chunk[1..5][0] != m[0];
    assert chunk[2..6] == [chunk[2], chunk[3], chunk[4], chunk[5]] == m;
    IndexOfIsFirst(chunk, m, 0, 2);
    assert "\r\n" + "--\U{E9}" == "\r\n--\U{E9}";
    assert Utf8("\r\n--\U{E9}") == [CR, LF, 0x2D, 0x2D, 0xC3, 0xA9];
    assert chunk[..2] + [CR, LF, 0x2D, 0x2D, 0xC3, 0xA9] + chunk[6..]
        == [0x41, 0x41, CR, LF, 0x2D, 0x2D, 0xC3, 0xA9];
  }

  /** The bytes carried to the next chunk are the raw chunk's last two: the
      insertion lands before a marker at least two bytes long. */
  lemma RepairKeepsTail(tail: Option<(byte, byte)>, boundary: string, chunk: seq<byte>)
    ensures TailOf(Repair(tail, boundary, chunk)) == TailOf(chunk)
  {
    var r := Repair(tail, boundary, chunk);
    var p := MarkerIndex(boundary, chunk);
    if r != chunk {
      assert |chunk[p..]| >= 2;
      assert r[|r| - 2..] == chunk[p..][|chunk[p..]| - 2..];
    }
  }

  /** After the repair the chunk's first marker follows a CRLF: inside the
      output, or carried over from the previous chunk when the marker opens the
      chunk. A marker already behind a CRLF is left alone, so no CRLF is ever
      doubled. Only the marker at index 1 escapes. */
  lemma FirstMarkerFollowsCrlf(tail: Option<(byte, byte)>, boundary: string, chunk: seq<byte>)
    requires tail.Some? && '\r' !in boundary
    requires var p := MarkerIndex(boundary, chunk); p == 0 || p > 1
    ensures var r := Repair(tail, boundary, chunk);
            var q := MarkerIndex(boundary, r);
            && q >= 0
            && (q == 0 ==> tail.value == (CR, LF) && r == chunk)
            && (q != 0 ==> q >= 2 && r[q - 2] == CR && r[q - 1] == LF)
  {
    var p := MarkerIndex(boundary, chunk);
    var r := Repair(tail, boundary, chunk);
    if r != chunk {
      Utf8OmitsAsciiChar(boundary, '\r');
      RepairedMarkerMovesByTwo(tail, boundary, chunk);
    }
  }

  /** When the repair fires, the first marker of the output is the chunk's
      first marker, two bytes further on. */
  lemma RepairedMarkerMovesByTwo(tail: Option<(byte, byte)>, boundary: string, chunk: seq<byte>)
    requires CR !in Utf8(boundary)
    requires Repair(tail, boundary, chunk) != chunk
    ensures MarkerIndex(boundary, Repair(tail, boundary, chunk)) == MarkerIndex(boundary, chunk) + 2
  {
    var m := Marker(boundary);
    var p := MarkerIndex(boundary, chunk);
    var r := Repair(tail, boundary, chunk);
    assert r == chunk[..p] + [CR, LF] + chunk[p..] by {
      assert r == r[..p] + r[p..p + 2] + r[p + 2..];
    }
    assert CR !in m;
    CrlfInsertionKeepsFirstMarker(chunk, m, p);
  }

  /** Inserting CRLF just before the first occurrence of a pattern that starts
      with `-` and holds no CR moves that first occurrence two places on. */
  lemma CrlfInsertionKeepsFirstMarker(chunk: seq<byte>, m: seq<byte>, p: nat)
    requires |m| >= 1 && m[0] == 0x2D && CR !in m
    requires IndexOf(chunk, m, 0) == p
    ensures IndexOf(chunk[..p] + [CR, LF] + chunk[p..], m, 0) == p + 2
  {
    var r := chunk[..p] + [CR, LF] + chunk[p..];
    assert OccursAt(r, m, p + 2) by {
      assert r[p + 2..p + 2 + |m|] == chunk[p..p + |m|];
    }
    forall j | 0 <= j < p + 2
      ensures !OccursAt(r, m, j)
    {
      if j + |m| <= p {
        assert r[j..j + |m|] == chunk[j..j + |m|];
        assert !OccursAt(chunk, m, j);
      } else {
        var k := if j <= p then p else p + 1;
        assert r[k] == if j <= p then CR else LF;
        assert m[k - j] != r[k];
        if j + |m| <= |r| {
          assert r[j..j + |m|][k - j] == r[k];
        }
      }
    }
    IndexOfIsFirst(r, m, 0, p + 2);
  }
}
