/**
 * Common value types of the store: byte blobs for record values and an
 * Option standing for a C pointer that may be NULL.
 */
module Values {
  /** The bytes of a record value (`void *data` of length `valueLen`). */
  type Bytes = seq<bv8>

  datatype Option<T> = None | Some(value: T)
}

/**
 * The four key alphabets of the trie engine and their character-to-slot
 * mappers.  A key character stands for one byte of the C string; its code
 * is the byte's value.
 */
module Alphabet {

  /** The trie variants, and the database types that select them. */
  datatype Variant = Ascii | Digital | Hex | Octal

  /** Number of child slots in a node of the variant (`next[95]`, `next[10]`, ...). */
  function Fanout(v: Variant): nat
  {
    match v
    case Ascii => 95
    case Digital => 10
    case Hex => 16
    case Octal => 8
  }

  /** Whether the variant's FindEnd rejects a terminal node whose inUse is 0 (all but Digital). */
  predicate ChecksInUse(v: Variant)
  {
    v != Digital
  }

  /** `_toAsciiIdx`: printable characters map to their offset from ' ', all others to slot 0. */
  function AsciiIdx(c: char): (r: int)
    ensures 0 <= r < 95
    ensures r != 0 ==> 32 < c as int < 127
    ensures !InAlphabet(Ascii, c) ==> r == 0
  {
    if 31 < c as int < 127 then c as int - ' ' as int else 0
  }

  /** The digital `IDX(c)` macro: `c - '0'` with no range check at all. */
  function DigitalIdx(c: char): (r: int)
    ensures 0 <= r < 10 <==> InAlphabet(Digital, c)
  {
    c as int - '0' as int
  }

  /** `_toHexIdx`: digits to 0..9, both 'A'..'F' and 'a'..'f' to 10..15, everything else to 0. */
  function HexIdx(c: char): (r: int)
    ensures 0 <= r < 16
    ensures !InAlphabet(Hex, c) ==> r == 0
  {
    if 47 < c as int < 58 then c as int - '0' as int
    else if 64 < c as int < 71 then c as int - 'A' as int + 10
    else if 96 < c as int < 103 then c as int - 'a' as int + 10
    else 0
  }

  /** `_toOctalIdx`: '0'..'7' to 0..7, everything else to 0. */
  function OctalIdx(c: char): (r: int)
    ensures 0 <= r < 8
    ensures !InAlphabet(Octal, c) ==> r == 0
  {
    if 47 < c as int < 56 then c as int - '0' as int else 0
  }

  /** The mapper of a variant. */
  function Idx(v: Variant, c: char): int
  {
    match v
    case Ascii => AsciiIdx(c)
    case Digital => DigitalIdx(c)
    case Hex => HexIdx(c)
    case Octal => OctalIdx(c)
  }

  /** The slot indices a key walks through, one per character. */
  function IdxPath(v: Variant, key: string): seq<int>
  {
    seq(|key|, i requires 0 <= i < |key| => Idx(v, key[i]))
  }

  /** The characters a variant's mapper accepts without falling back to slot 0. */
  predicate InAlphabet(v: Variant, c: char)
  {
    match v
    case Ascii => ' ' <= c <= '~'
    case Digital => '0' <= c <= '9'
    case Hex => '0' <= c <= '9' || 'A' <= c <= 'F' || 'a' <= c <= 'f'
    case Octal => '0' <= c <= '7'
  }

  /** Every character of the key is in the variant's alphabet. */
  predicate ValidKey(v: Variant, key: string)
  {
    forall i :: 0 <= i < |key| ==> InAlphabet(v, key[i])
  }

  /**
   * Every slot index of the key lies inside the node's `next` array.  The
   * digital operations need this of their callers: `IDX` reads outside
   * `next[10]` for any character other than a digit.
   */
  predicate Indexable(v: Variant, key: string)
  {
    forall i :: 0 <= i < |key| ==> 0 <= Idx(v, key[i]) < Fanout(v)
  }

  /** The character that a slot index of the variant stands for (upper case for hex letters). */
  function SlotChar(v: Variant, i: int): (c: char)
    requires 0 <= i < Fanout(v)
    ensures InAlphabet(v, c)
  {
    match v
    case Ascii => (i + ' ' as int) as char
    case Hex => if i < 10 then (i + '0' as int) as char else (i - 10 + 'A' as int) as char
    case _ => (i + '0' as int) as char
  }

  /** SlotChar is a right inverse of every mapper: each slot is reached by its character. */
  lemma IdxOfSlotChar(v: Variant, i: int)
    requires 0 <= i < Fanout(v)
    ensures Idx(v, SlotChar(v, i)) == i
  {
  }

  /**
   * On its alphabet the mapper is a left inverse of SlotChar, except that a
   * lower-case hex letter comes back as its upper-case form.
   */
  lemma SlotCharOfIdx(v: Variant, c: char)
    requires InAlphabet(v, c)
    ensures 0 <= Idx(v, c) < Fanout(v)
    ensures SlotChar(v, Idx(v, c)) == (if v == Hex && 'a' <= c <= 'f' then (c as int - 32) as char else c)
  {
  }

  /** On a non-hex alphabet two characters share a slot only if they are equal. */
  lemma IdxInjective(v: Variant, c: char, d: char)
    requires v != Hex && InAlphabet(v, c) && InAlphabet(v, d)
    requires Idx(v, c) == Idx(v, d)
    ensures c == d
  {
    SlotCharOfIdx(v, c);
    SlotCharOfIdx(v, d);
  }

  /** A lower-case hex letter and its upper-case form share a slot. */
  lemma HexCaseCollision(c: char)
    requires 'a' <= c <= 'f'
    ensures InAlphabet(Hex, c) && InAlphabet(Hex, (c as int - 32) as char)
    ensures Idx(Hex, c) == Idx(Hex, (c as int - 32) as char)
  {
  }

  /** A key over the variant's alphabet is indexable; non-digital keys always are. */
  lemma ValidKeyIsIndexable(v: Variant, key: string)
    requires ValidKey(v, key) || v != Digital
    ensures Indexable(v, key)
  {
    forall i | 0 <= i < |key|
      ensures 0 <= Idx(v, key[i]) < Fanout(v)
    {
      if v == Digital {
        assert InAlphabet(v, key[i]);
      }
    }
  }

  /** A non-digit character sends the digital `IDX` outside `next[10]`. */
  lemma DigitalIdxOutOfRange(c: char)
    requires !InAlphabet(Digital, c)
    ensures !(0 <= Idx(Digital, c) < Fanout(Digital))
  {
  }

  /**
   * Over a non-hex alphabet distinct keys walk distinct slot paths, so the
   * trie cannot confuse them.
   */
  lemma {:induction false} IdxPathInjective(v: Variant, a: string, b: string)
    requires v != Hex && ValidKey(v, a) && ValidKey(v, b)
    requires IdxPath(v, a) == IdxPath(v, b)
    ensures a == b
  {
    assert |a| == |IdxPath(v, a)| == |IdxPath(v, b)| == |b|;
    forall i | 0 <= i < |a|
      ensures a[i] == b[i]
    {
      assert IdxPath(v, a)[i] == Idx(v, a[i]);
      assert IdxPath(v, b)[i] == Idx(v, b[i]);
      IdxInjective(v, a[i], b[i]);
    }
  }

  /** The hex variant maps "a" and "A" to the same path: its keys can collide. */
  lemma HexPathsCollide()
    ensures ValidKey(Hex, "a") && ValidKey(Hex, "A") && "a" != "A"
    ensures IdxPath(Hex, "a") == IdxPath(Hex, "A")
  {
    HexCaseCollision('a');
    assert IdxPath(Hex, "a")[0] == Idx(Hex, 'a');
    assert IdxPath(Hex, "A")[0] == Idx(Hex, 'A');
  }
}
