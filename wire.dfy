/** Option and Result, the failure-carrying values used throughout the model. */
module Wrappers {
  datatype Option<+T> = None | Some(value: T)

  datatype Result<+T, +E> = Success(value: T) | Failure(error: E)
}

/**
 * Byte-level layout shared by the frame builders: the `word8be` and
 * `word16be` writers of the buffer builder used in lib/master.js, and the
 * big-endian word reader that undoes them. Bytes are integers 0..255 and a
 * frame is a `seq<int>`.
 */
module Wire {

  /** A value that fits in one byte on the wire. */
  predicate IsByte(x: int) { 0 <= x < 0x100 }

  /** A value that fits in one 16-bit holding register. */
  predicate IsWord(x: int) { 0 <= x < 0x1_0000 }

  predicate AllBytes(s: seq<int>) { forall i :: 0 <= i < |s| ==> IsByte(s[i]) }

  predicate AllWords(s: seq<int>) { forall i :: 0 <= i < |s| ==> IsWord(s[i]) }

  /** `word8be(x)`: one byte holding the low eight bits of x. */
  function Word8(x: int): (b: int)
    ensures IsByte(b)
    ensures IsByte(x) ==> b == x
    ensures (x - b) % 0x100 == 0
  {
    x % 0x100
  }

  /** The big-endian 16-bit word stored at positions i and i + 1 of s. */
  function WordAt(s: seq<int>, i: nat): (w: int)
    requires i + 2 <= |s|
    ensures IsByte(s[i]) && IsByte(s[i + 1]) ==> IsWord(w)
  {
    s[i] * 0x100 + s[i + 1]
  }

  lemma LowSixteenBits(x: int)
    ensures ((x / 0x100) % 0x100) * 0x100 + x % 0x100 == x % 0x1_0000
  {
    var q, r := x / 0x100, x % 0x100;
    assert x == 0x100 * q + r;
    assert q == 0x100 * (q / 0x100) + q % 0x100;
    assert x == 0x1_0000 * (q / 0x100) + (0x100 * (q % 0x100) + r);
  }

  /** `word16be(x)`: the low sixteen bits of x, high byte first. */
  function Word16(x: int): (r: seq<int>)
    ensures |r| == 2 && AllBytes(r)
    ensures WordAt(r, 0) == x % 0x1_0000
    ensures IsWord(x) ==> WordAt(r, 0) == x
  {
    LowSixteenBits(x);
    [(x / 0x100) % 0x100, x % 0x100]
  }

  /** Writing back a word read from two bytes gives those two bytes. */
  lemma Word16OfWordAt(s: seq<int>, i: nat)
    requires i + 2 <= |s| && IsByte(s[i]) && IsByte(s[i + 1])
    ensures Word16(WordAt(s, i)) == s[i..i + 2]
  {
    var hi, lo := s[i], s[i + 1];
    assert (hi * 0x100 + lo) / 0x100 == hi;
    assert (hi * 0x100 + lo) % 0x100 == lo;
  }

  /** The values of an array, each written with `word16be`, in array order. */
  function Words(vs: seq<int>): (r: seq<int>)
    ensures |r| == 2 * |vs| && AllBytes(r)
  {
    if vs == [] then [] else Word16(vs[0]) + Words(vs[1..])
  }

  /** Reads consecutive big-endian words; a trailing odd byte is ignored. */
  function ParseWords(s: seq<int>): (r: seq<int>)
    ensures |r| == |s| / 2
    ensures AllBytes(s) ==> AllWords(r)
  {
    if |s| < 2 then [] else [WordAt(s, 0)] + ParseWords(s[2..])
  }

  /** Word i of `Words(vs)` reads back as the low sixteen bits of vs[i]. */
  lemma {:induction false} WordsAt(vs: seq<int>, i: nat)
    requires i < |vs|
    ensures WordAt(Words(vs), 2 * i) == vs[i] % 0x1_0000
  {
    var rest := Words(vs[1..]);
    assert Words(vs) == Word16(vs[0]) + rest;
    if i > 0 {
      WordsAt(vs[1..], i - 1);
      assert Words(vs)[2 * i] == rest[2 * (i - 1)];
      assert Words(vs)[2 * i + 1] == rest[2 * (i - 1) + 1];
    }
  }

  lemma WordsAllAt(vs: seq<int>)
    ensures forall i :: 0 <= i < |vs| ==> WordAt(Words(vs), 2 * i) == vs[i] % 0x1_0000
  {
    forall i | 0 <= i < |vs|
      ensures WordAt(Words(vs), 2 * i) == vs[i] % 0x1_0000
    {
      WordsAt(vs, i);
    }
  }

  /** Appending one value appends its two bytes: the step of a forEach over the array. */
  lemma {:induction false} WordsSnoc(vs: seq<int>, v: int)
    ensures Words(vs + [v]) == Words(vs) + Word16(v)
  {
    if vs == [] {
      assert [v][1..] == [];
    } else {
      assert (vs + [v])[1..] == vs[1..] + [v];
      WordsSnoc(vs[1..], v);
    }
  }

  /** Round trip: 16-bit values written with `Words` read back unchanged. */
  lemma {:induction false} ParseWordsOfWords(vs: seq<int>)
    requires AllWords(vs)
    ensures ParseWords(Words(vs)) == vs
  {
    if vs != [] {
      var s := Words(vs);
      assert s == Word16(vs[0]) + Words(vs[1..]);
      assert s[2..] == Words(vs[1..]);
      assert WordAt(s, 0) == vs[0];
      ParseWordsOfWords(vs[1..]);
    }
  }

  /** Round trip the other way: an even run of bytes is the encoding of the words read from it. */
  lemma {:induction false} WordsOfParseWords(s: seq<int>)
    requires AllBytes(s) && |s| % 2 == 0
    ensures Words(ParseWords(s)) == s
  {
    if |s| >= 2 {
      var ws := ParseWords(s);
      assert ws[1..] == ParseWords(s[2..]);
      Word16OfWordAt(s, 0);
      WordsOfParseWords(s[2..]);
      assert s == s[0..2] + s[2..];
    }
  }
}
