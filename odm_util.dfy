/** Helpers of odm/util.py: splitting a long file name into pieces that fit
    the 255-byte name limit of common Unix file systems, and a reader that
    returns a bounded window of a file.

    A name is a sequence of Unicode code points (a Dafny `string`); its size
    on disk is the length of its UTF-8 encoding, where a code point takes 1,
    2, 3 or 4 bytes (section 3 of RFC 3629). */
module OdmUtil {
  import opened Bits

  /** The longest name, in UTF-8 bytes, a file system entry may have. */
  const NameMax: nat := 255

  /** Bytes UTF-8 uses for one code point (section 3 of RFC 3629). */
  function Utf8Len(c: char): (r: nat)
    ensures 1 <= r <= 4
  {
    if c as int < 0x80 then 1
    else if c as int < 0x800 then 2
    else if c as int < 0x10000 then 3
    else 4
  }

  /** `len(s.encode('utf-8'))`. */
  function EncodedLength(s: string): nat
  {
    if s == [] then 0 else Utf8Len(s[0]) + EncodedLength(s[1..])
  }

  lemma {:induction false} EncodedLengthConcat(a: string, b: string)
    ensures EncodedLength(a + b) == EncodedLength(a) + EncodedLength(b)
  {
    if a != [] {
      assert (a + b)[0] == a[0];
      assert (a + b)[1..] == a[1..] + b;
      EncodedLengthConcat(a[1..], b);
      assert EncodedLength(a + b) == Utf8Len(a[0]) + EncodedLength(a[1..] + b);
    } else {
      assert a + b == b;
    }
  }

  /** One more code point costs its own UTF-8 length. */
  lemma EncodedLengthSnoc(s: string, j: nat)
    requires j < |s|
    ensures EncodedLength(s[..j + 1]) == EncodedLength(s[..j]) + Utf8Len(s[j])
  {
    assert s[..j + 1] == s[..j] + [s[j]];
    EncodedLengthConcat(s[..j], [s[j]]);
  }

  /** A longer prefix never encodes to fewer bytes. */
  lemma {:induction false} EncodedLengthMonotone(s: string, i: nat, j: nat)
    requires i <= j <= |s|
    ensures EncodedLength(s[..i]) <= EncodedLength(s[..j])
    decreases j - i
  {
    if i < j {
      EncodedLengthMonotone(s, i, j - 1);
      EncodedLengthSnoc(s, j - 1);
    }
  }

  /** How many leading code points of s fit in `budget` bytes. */
  function Fit(s: string, budget: nat): (r: nat)
    ensures r <= |s|
    ensures s != [] && budget >= 4 ==> r >= 1
  {
    if s == [] || Utf8Len(s[0]) > budget then 0
    else 1 + Fit(s[1..], budget - Utf8Len(s[0]))
  }

  /** Fit gives the longest prefix within the budget: it fits, and one more
      code point would not. */
  lemma {:induction false} FitIsLongest(s: string, budget: nat)
    ensures EncodedLength(s[..Fit(s, budget)]) <= budget
    ensures Fit(s, budget) < |s| ==> EncodedLength(s[..Fit(s, budget) + 1]) > budget
  {
    var r := Fit(s, budget);
    if s == [] {
    } else if Utf8Len(s[0]) > budget {
      assert s[..1] == [s[0]];
    } else {
      var u := Utf8Len(s[0]);
      FitIsLongest(s[1..], budget - u);
      assert s[..r] == [s[0]] + s[1..][..r - 1];
      if r < |s| {
        assert s[..r + 1] == [s[0]] + s[1..][..r];
      }
    }
  }

  /** Any j whose prefix fits and whose next code point does not is Fit. */
  lemma FitUnique(s: string, j: nat)
    requires j < |s|
    requires EncodedLength(s[..j]) <= NameMax < EncodedLength(s[..j + 1])
    ensures j == Fit(s, NameMax)
  {
    var f := Fit(s, NameMax);
    FitIsLongest(s, NameMax);
    if f < j {
      EncodedLengthMonotone(s, f + 1, j);
    } else if j < f {
      EncodedLengthMonotone(s, j + 1, f);
    }
  }

  /** The pieces of a name: greedy maximal prefixes of at most 255 bytes,
      then the remainder. */
  function Pieces(name: string): (r: seq<string>)
    ensures |r| >= 1
    decreases |name|
  {
    if EncodedLength(name) <= NameMax then [name]
    else
      var j := Fit(name, NameMax);
      [name[..j]] + Pieces(name[j..])
  }

  /** All pieces joined without a separator. */
  function Concat(ps: seq<string>): string
  {
    if ps == [] then "" else ps[0] + Concat(ps[1..])
  }

  /** Joining the pieces gives the name back. */
  lemma {:induction false} PiecesConcat(name: string)
    ensures Concat(Pieces(name)) == name
    decreases |name|
  {
    if EncodedLength(name) > NameMax {
      var j := Fit(name, NameMax);
      PiecesConcat(name[j..]);
      assert Pieces(name)[1..] == Pieces(name[j..]);
      assert name[..j] + name[j..] == name;
    }
  }

  /** Every piece fits in 255 bytes. */
  lemma {:induction false} PiecesFit(name: string)
    ensures forall k :: 0 <= k < |Pieces(name)| ==> EncodedLength(Pieces(name)[k]) <= NameMax
    decreases |name|
  {
    if EncodedLength(name) > NameMax {
      var j := Fit(name, NameMax);
      FitIsLongest(name, NameMax);
      PiecesFit(name[j..]);
      assert Pieces(name)[1..] == Pieces(name[j..]);
    }
  }

  /** Piece k is non-empty, the piece after it too, and piece k with the
      first code point of piece k + 1 appended no longer fits. */
  predicate Maximal(ps: seq<string>, k: nat)
    requires k + 1 < |ps|
  {
    ps[k] != [] && ps[k + 1] != [] && EncodedLength(ps[k] + [ps[k + 1][0]]) > NameMax
  }

  /** Every piece but the last is non-empty and maximal: with the next code
      point of the name it would not fit. */
  lemma {:induction false} PiecesMaximal(name: string)
    ensures forall k: nat :: k + 1 < |Pieces(name)| ==> Maximal(Pieces(name), k)
    decreases |name|
  {
    if EncodedLength(name) > NameMax {
      var j := Fit(name, NameMax);
      var rest := name[j..];
      var ps := Pieces(name);
      FitIsLongest(name, NameMax);
      PiecesMaximal(rest);
      assert ps[1..] == Pieces(rest);
      assert name[..|name|] == name;
      assert rest != [];
      assert Maximal(ps, 0) by {
        PiecesHead(rest);
        assert ps[0] + [ps[1][0]] == name[..j + 1];
      }
      forall k: nat | 0 < k && k + 1 < |ps|
        ensures Maximal(ps, k)
      {
        assert Maximal(Pieces(rest), k - 1);
      }
    }
  }

  /** The first piece of a non-empty name starts with the name's first code point. */
  lemma PiecesHead(name: string)
    requires name != []
    ensures Pieces(name)[0] != [] && Pieces(name)[0][0] == name[0]
  {
  }

  /** A name that already fits is returned as the only piece; this covers the empty name. */
  lemma ShortNameIsOnePiece(name: string)
    requires EncodedLength(name) <= NameMax
    ensures Pieces(name) == [name]
  {
  }

  /** chunky_path(name). */
  method ChunkyPath(name: string) returns (path: seq<string>)
    ensures path == Pieces(name)
  {
    path := [];
    var rest := name;
    while EncodedLength(rest) > NameMax
      invariant path + Pieces(rest) == Pieces(name)
      decreases |rest|
    {
      var j := LongestPrefix(rest);
      path := path + [rest[..j]];
      rest := rest[j..];
    }
    path := path + [rest];
  }

  /** The inner loop of chunky_path: the first j whose prefix needs more than
      255 bytes, less one; when no prefix shorter than the name is too long,
      the loop ends with j at |name| - 1. */
  method LongestPrefix(name: string) returns (j: nat)
    requires EncodedLength(name) > NameMax
    ensures 0 < j < |name| && j == Fit(name, NameMax)
  {
    assert name != [];
    j := 0;
    var k := 0;
    while k < |name|
      invariant 0 <= k <= |name|
      invariant forall m :: 0 <= m < k ==> EncodedLength(name[..m]) <= NameMax
      invariant k > 0 ==> j == k - 1
    {
      j := k;
      if EncodedLength(name[..j]) > NameMax {
        j := j - 1;
        FitUnique(name, j);
        break;
      }
      k := k + 1;
    }
    if k == |name| {
      assert name[..j + 1] == name;
      FitUnique(name, j);
    }
  }

  // ---------------------------------------------------------------------------
  // ChunkyFile

  /** `f.read(n)` on a file with the given content whose position is pos:
      a negative n reads to the end of the file. */
  function FileRead(content: seq<Byte>, pos: nat, n: int): (r: seq<Byte>)
    ensures pos <= |content| ==> pos + |r| <= |content| && r == content[pos..pos + |r|]
    ensures pos >= |content| ==> r == []
    ensures n >= 0 ==> |r| <= n
    ensures n >= 0 && pos + n <= |content| ==> |r| == n
    ensures n < 0 && pos <= |content| ==> |r| == |content| - pos
  {
    if pos >= |content| then []
    else if n < 0 || pos + n > |content| then content[pos..]
    else content[pos..pos + n]
  }

  /** The bytes of the file from offset a up to offset b, when both are within it. */
  function Window(content: seq<Byte>, a: nat, b: nat): seq<Byte>
  {
    if a <= b <= |content| then content[a..b] else []
  }

  /** Reading on from the end of the window extends the window. */
  lemma WindowGrows(content: seq<Byte>, a: nat, b: nat, ret: seq<Byte>)
    requires a <= b
    requires b <= |content| ==> b + |ret| <= |content| && ret == content[b..b + |ret|]
    requires b > |content| ==> ret == []
    requires a < b ==> b <= |content|
    ensures ret != [] ==> Window(content, a, b + |ret|) == Window(content, a, b) + ret
  {
    if ret != [] {
      assert content[a..b + |ret|] == content[a..b] + content[b..b + |ret|];
    }
  }

  /** A reader that hands out at most `len` bytes of a file, starting at
      offset `start`, and closes the file once it has handed them out.  The
      open file is its content and the position `pos` of the file object. */
  class ChunkyFile {
    const content: seq<Byte>
    const start: nat
    const len: int
    var pos: nat
    var counter: nat
    var closed: bool
    /** Everything read so far, in order. */
    ghost var delivered: seq<Byte>

    ghost predicate Valid()
      reads this
    {
      && counter == |delivered|
      && pos == start + counter
      && (counter > 0 ==> pos <= |content|)
      && delivered == Window(content, start, pos)
      && (closed ==> counter >= len)
    }

    /** __init__(fname, start, size): open the file and seek to start. */
    constructor (content: seq<Byte>, start: nat, size: int)
      ensures Valid()
      ensures this.content == content && this.start == start && len == size
      ensures counter == 0 && !closed && delivered == []
    {
      this.content := content;
      this.start := start;
      len := size;
      pos := start;
      counter := 0;
      closed := false;
      delivered := [];
    }

    /** read(size): nothing once `len` bytes have been handed out; otherwise
        the next min(size, len - counter) bytes of the file (all the rest of
        the file when that is negative), closing the file when the window is
        used up.  The file is never read after it is closed. */
    method Read(size: int) returns (ret: seq<Byte>)
      requires Valid()
      modifies this
      ensures Valid()
      ensures delivered == old(delivered) + ret
      ensures old(counter) >= len ==> ret == [] && counter == old(counter) && closed == old(closed)
      ensures old(counter) < len && size >= 0 ==>
        |ret| == Min(Min(size, len - old(counter)), Avail(old(pos)))
      ensures old(counter) < len && size < len - old(counter) && size < 0 ==> |ret| == Avail(old(pos))
      ensures size >= 0 && old(counter) <= len ==> counter <= len
      ensures closed <==> old(closed) || (old(counter) < len && counter >= len)
    {
      if counter >= len {
        return [];
      }
      var readSize := Min(size, len - counter);
      ret := FileRead(content, pos, readSize);
      WindowGrows(content, start, pos, ret);
      delivered := delivered + ret;
      counter := counter + |ret|;
      pos := pos + |ret|;
      if counter >= len {
        closed := true;
      }
    }

    /** Bytes left in the file after position p. */
    function Avail(p: nat): nat
      reads this
    {
      if p <= |content| then |content| - p else 0
    }
  }

  function Min(a: int, b: int): (r: int)
    ensures r <= a && r <= b && (r == a || r == b)
  {
    if a <= b then a else b
  }
}
