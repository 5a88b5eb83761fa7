/**
 * The UTF-8 byte image of a text, as Rust's `String` stores it, and the
 * correspondence between character indices and byte offsets that the
 * scanners of the matcher depend on.
 */
module Utf8 {
  import opened Wrappers

  /** One byte of a UTF-8 image. */
  type byte = x: int | 0 <= x < 0x100

  /**
   * A character classifier. The matcher uses Rust's `char::is_alphanumeric`,
   * whose Unicode tables are not part of this model: every scanner takes the
   * classifier as a parameter.
   */
  type Classifier = char -> bool

  /** The classifier restricted to ASCII letters and digits. */
  predicate AsciiAlnum(c: char) {
    ('a' <= c <= 'z') || ('A' <= c <= 'Z') || ('0' <= c <= '9')
  }

  /** Number of bytes in the UTF-8 encoding of `c` (Rust's `char::len_utf8`). */
  function CharLen(c: char): (n: nat)
    ensures 1 <= n <= 4
  {
    if (c as int) < 0x80 then 1
    else if (c as int) < 0x800 then 2
    else if (c as int) < 0x1_0000 then 3
    else 4
  }

  /** The UTF-8 encoding of one character. */
  function EncodeChar(c: char): (bs: seq<byte>)
    ensures |bs| == CharLen(c)
    ensures |bs| == 1 ==> bs[0] == c as int
    ensures |bs| > 1 ==> 0xC2 <= bs[0] <= 0xF4
    ensures forall i :: 1 <= i < |bs| ==> 0x80 <= bs[i] < 0xC0
  {
    var v := c as int;
    if v < 0x80 then [v]
    else if v < 0x800 then [0xC0 + v / 0x40, 0x80 + v % 0x40]
    else if v < 0x1_0000 then [0xE0 + v / 0x1000, 0x80 + (v / 0x40) % 0x40, 0x80 + v % 0x40]
    else [0xF0 + v / 0x4_0000, 0x80 + (v / 0x1000) % 0x40, 0x80 + (v / 0x40) % 0x40, 0x80 + v % 0x40]
  }

  /** The UTF-8 image of a text. */
  function Encode(s: seq<char>): (bs: seq<byte>)
    ensures |bs| >= |s|
  {
    if s == [] then [] else EncodeChar(s[0]) + Encode(s[1..])
  }

  /** Encoding distributes over concatenation. */
  lemma {:induction false} EncodeAppend(a: seq<char>, b: seq<char>)
    ensures Encode(a + b) == Encode(a) + Encode(b)
  {
    if a == [] {
      assert a + b == b;
    } else {
      assert (a + b)[1..] == a[1..] + b;
      EncodeAppend(a[1..], b);
    }
  }

  /** Byte offset at which character `k` of `s` starts (the index `char_indices` reports). */
  function Offset(s: seq<char>, k: nat): nat
    requires k <= |s|
  {
    |Encode(s[..k])|
  }

  /** Moving one character forward advances the byte offset by that character's width. */
  lemma OffsetStep(s: seq<char>, k: nat)
    requires k < |s|
    ensures Offset(s, k + 1) == Offset(s, k) + CharLen(s[k])
  {
    assert s[..k + 1] == s[..k] + [s[k]];
    EncodeAppend(s[..k], [s[k]]);
  }

  /** Offsets start at 0 and end at the length of the image. */
  lemma OffsetEnds(s: seq<char>)
    ensures Offset(s, 0) == 0
    ensures Offset(s, |s|) == |Encode(s)|
  {
    assert s[..0] == [];
    assert s[..|s|] == s;
  }

  /** Byte offsets grow by at least one byte per character. */
  lemma {:induction false} OffsetMono(s: seq<char>, j: nat, k: nat)
    requires j <= k <= |s|
    ensures Offset(s, j) + (k - j) <= Offset(s, k)
    decreases k - j
  {
    if j < k {
      OffsetMono(s, j, k - 1);
      OffsetStep(s, k - 1);
    }
  }

  /** Distinct character indices start at distinct byte offsets. */
  lemma OffsetInjective(s: seq<char>, j: nat, k: nat)
    requires j <= |s| && k <= |s|
    requires Offset(s, j) == Offset(s, k)
    ensures j == k
  {
    if j < k {
      OffsetMono(s, j, k);
    } else if k < j {
      OffsetMono(s, k, j);
    }
  }

  /** The bytes between the offsets of characters `i` and `j` are the image of `s[i..j]`. */
  lemma EncodeSlice(s: seq<char>, i: nat, j: nat)
    requires i <= j <= |s|
    ensures Offset(s, i) <= Offset(s, j) <= |Encode(s)|
    ensures Encode(s)[Offset(s, i)..Offset(s, j)] == Encode(s[i..j])
  {
    assert s == s[..i] + s[i..j] + s[j..];
    EncodeAppend(s[..i] + s[i..j], s[j..]);
    EncodeAppend(s[..i], s[i..j]);
    assert s[..j] == s[..i] + s[i..j];
  }

  /**
   * The index of the character that starts at byte `b`, or None when `b` is
   * not a character boundary (Rust's `str::is_char_boundary`).
   */
  function CharIndexAt(s: seq<char>, b: nat): (r: Option<nat>)
    ensures r.Some? ==> r.value <= |s| && Offset(s, r.value) == b
    ensures r.None? ==> forall k :: 0 <= k <= |s| ==> Offset(s, k) != b
  {
    OffsetEnds(s);
    IndexFrom(s, b, 0)
  }

  /** Search for a character starting at byte `b` among indices `k..|s|`. */
  function IndexFrom(s: seq<char>, b: nat, k: nat): (r: Option<nat>)
    requires k <= |s|
    requires Offset(s, k) <= b
    ensures r.Some? ==> k <= r.value <= |s| && Offset(s, r.value) == b
    ensures r.None? ==> forall m :: k <= m <= |s| ==> Offset(s, m) != b
    decreases |s| - k
  {
    if Offset(s, k) == b then Some(k)
    else if k == |s| then None
    else
      OffsetStep(s, k);
      if Offset(s, k + 1) > b then
        assert forall m :: k + 1 <= m <= |s| ==> Offset(s, m) != b by {
          forall m | k + 1 <= m <= |s| ensures Offset(s, m) != b {
            OffsetMono(s, k + 1, m);
          }
        }
        None
      else IndexFrom(s, b, k + 1)
  }

  /** Byte offsets are ordered as the character indices they belong to. */
  lemma OffsetOrder(s: seq<char>, j: nat, k: nat)
    requires j <= |s| && k <= |s|
    requires Offset(s, j) <= Offset(s, k)
    ensures j <= k
  {
    if k < j {
      OffsetMono(s, k, j);
    }
  }

  /** The offset of every character index is a boundary that leads back to that index. */
  lemma CharIndexOfOffset(s: seq<char>, k: nat)
    requires k <= |s|
    ensures CharIndexAt(s, Offset(s, k)) == Some(k)
  {
    var r := CharIndexAt(s, Offset(s, k));
    if r.Some? {
      OffsetInjective(s, r.value, k);
    }
  }

  /** A byte strictly inside the encoding of one character is not a boundary. */
  lemma InsideCharNotBoundary(s: seq<char>, k: nat, b: nat)
    requires k < |s|
    requires Offset(s, k) < b < Offset(s, k + 1)
    ensures CharIndexAt(s, b).None?
  {
    var r := CharIndexAt(s, b);
    if r.Some? {
      if r.value <= k {
        OffsetMono(s, r.value, k);
      } else {
        OffsetMono(s, k + 1, r.value);
      }
    }
  }

  /** In a text whose encoding has one byte per character, offsets are indices. */
  lemma AsciiOffset(s: seq<char>, k: nat)
    requires |Encode(s)| == |s|
    requires k <= |s|
    ensures Offset(s, k) == k
  {
    OffsetEnds(s);
    OffsetMono(s, 0, k);
    OffsetMono(s, k, |s|);
  }

  /** A text whose encoding is longer than the text holds a multi-byte character. */
  lemma {:induction false} MultiByteChar(s: seq<char>) returns (k: nat)
    requires |Encode(s)| > |s|
    ensures k < |s| && CharLen(s[k]) > 1
  {
    if CharLen(s[0]) > 1 {
      k := 0;
    } else {
      var k' := MultiByteChar(s[1..]);
      k := k' + 1;
      assert s[1..][k'] == s[k];
    }
  }
}
