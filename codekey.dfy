/**
 * The lookup key built from the decoded request text:
 * every code point as `leftPad(cp.toString(16), 4, "0")`, joined with `-`.
 */
module CodeKey {
  import opened Wrappers
  import Text
  import Hex

  /** The code point of a character (a Unicode scalar value). */
  function CodePoint(c: char): (cp: nat)
  {
    c as int
  }

  /** One code point, rendered in lower-case hex and padded to four digits. */
  function Segment(c: char): (seg: string)
    ensures |seg| >= 4
    ensures Hex.IsLowerHex(seg)
    ensures Hex.ParseHex(seg) == CodePoint(c)
    ensures |seg| == 4 || seg[0] != '0'
  {
    var h := Hex.ToHex(CodePoint(c));
    Hex.ParseToHex(CodePoint(c));
    Hex.ParseLeadingZeros(if |h| < 4 then 4 - |h| else 0, h);
    Text.LeftPad(h, 4, '0')
  }

  /** `Array.from(text).map(...)`: one segment per code point, in order. */
  function Segments(text: string): (segs: seq<string>)
    ensures |segs| == |text|
    ensures forall k :: 0 <= k < |text| ==> segs[k] == Segment(text[k])
  {
    seq(|text|, k requires 0 <= k < |text| => Segment(text[k]))
  }

  /** The key: the segments joined with `-`. */
  function Key(text: string): string
  {
    Text.Join(Segments(text), "-")
  }

  function CodePoints(text: string): seq<nat>
  {
    seq(|text|, k requires 0 <= k < |text| => CodePoint(text[k]))
  }

  /** Every segment is a non-empty run of lower-case hex digits. */
  predicate HexSegments(segs: seq<string>)
  {
    forall k :: 0 <= k < |segs| ==> Hex.IsLowerHex(segs[k]) && segs[k] != []
  }

  function ParseSegments(segs: seq<string>): seq<nat>
    requires HexSegments(segs)
  {
    seq(|segs|, k requires 0 <= k < |segs| => Hex.ParseHex(segs[k]))
  }

  /**
   * Reads a key back: split on `-`, parse every segment as hex. A key with
   * an empty or non-hex segment is rejected.
   */
  function DecodeKey(key: string): Option<seq<nat>>
  {
    if key == [] then Some([])
    else
      var segs := Text.Split(key, '-');
      if HexSegments(segs) then Some(ParseSegments(segs)) else None
  }

  /** A key is made of lower-case hex digits and `-` only. */
  lemma KeyAlphabet(text: string)
    ensures forall i :: 0 <= i < |Key(text)| ==> Hex.IsLowerHexDigit(Key(text)[i]) || Key(text)[i] == '-'
  {
    Text.JoinKeeps(Segments(text), "-", c => Hex.IsLowerHexDigit(c) || c == '-');
  }

  /** So `code.toLowerCase()` leaves the key unchanged. */
  lemma KeyIsLowerCase(text: string)
    ensures Text.Lower(Key(text)) == Key(text)
  {
    KeyAlphabet(text);
    Text.LowerOfNoUpper(Key(text));
  }

  /**
   * A key of a non-empty text has exactly one `-`-separated segment per code
   * point; each is lower-case hex of at least four digits and parses back to
   * its code point.
   */
  lemma KeyStructure(text: string)
    requires text != []
    ensures Key(text) != []
    ensures Text.Split(Key(text), '-') == Segments(text)
    ensures |Text.Split(Key(text), '-')| == |text|
    ensures forall k :: 0 <= k < |text| ==>
      var seg := Text.Split(Key(text), '-')[k];
      |seg| >= 4 && Hex.IsLowerHex(seg) && Hex.ParseHex(seg) == CodePoint(text[k])
  {
    var segs := Segments(text);
    assert Text.Split(Key(text), '-') == segs by {
      Text.SplitJoin(segs, '-');
    }
    assert |Key(text)| >= |segs[0]|;
  }

  /** Decoding a key gives back the code points it was built from. */
  lemma {:induction false} KeyRoundTrip(text: string)
    ensures DecodeKey(Key(text)) == Some(CodePoints(text))
  {
    if text != [] {
      KeyStructure(text);
      var segs := Segments(text);
      assert HexSegments(segs);
      assert ParseSegments(segs) == CodePoints(text);
    }
  }

  /** Distinct texts have distinct keys. */
  lemma KeyInjective(t1: string, t2: string)
    requires Key(t1) == Key(t2)
    ensures t1 == t2
  {
    KeyRoundTrip(t1);
    KeyRoundTrip(t2);
    var c1, c2 := CodePoints(t1), CodePoints(t2);
    assert |t1| == |c1| == |c2| == |t2|;
    forall k | 0 <= k < |t1| ensures t1[k] == t2[k] {
      assert c1[k] == c2[k];
    }
  }

  /** Thumbs up, U+1F44D, keys as `1f44d`: five digits, no padding. */
  lemma KeyThumbsUp()
    ensures Key("\U{1F44D}") == "1f44d"
  {
    assert CodePoint('\U{1F44D}') == 0x1F44D;
    assert Hex.ToHex(0x1) == "1";
    assert Hex.ToHex(0x1F) == "1f";
    assert Hex.ToHex(0x1F4) == "1f4";
    assert Hex.ToHex(0x1F44) == "1f44";
    assert Hex.ToHex(0x1F44D) == "1f44d";
    assert Segments("\U{1F44D}") == ["1f44d"];
  }

  /** The digit `9`, U+0039, keys as `0039`: padded to four digits. */
  lemma KeyDigitNine()
    ensures Key("9") == "0039"
  {
    assert CodePoint('9') == 0x39;
    assert Hex.ToHex(0x3) == "3";
    assert Hex.ToHex(0x39) == "39";
    assert Text.Repeat('0', 2) == "00";
    assert Segment('9') == "0039";
    assert Segments("9") == ["0039"];
  }
}
