/** The wire form of function tokens: one 64-bit word, followed by the segment hash for a token that
    names its segment by hash. */
module WireTokens {

  type Ident = nat

  /** idx is the 16-bit pattern of a signed index. */
  datatype Token =
    | Single(offset: bv64)
    | Multi(offset: bv64, ident: Ident)
    | MultiIdx(offset: bv64, idx: bv16)

  /** What a writer appends and a reader takes off. */
  datatype Item = Word(bits: bv64) | Hash(ident: Ident)

  datatype Read = Read(token: Token, rest: seq<Item>) | Malformed

  const MSB: bv64 := 0x8000_0000_0000_0000
  const UPPER_BITS: bv64 := 0xFFFF_0000_0000_0000
  const LOWER_BITS: bv64 := 0x0000_FFFF_FFFF_FFFF
  const IDX_BITS: bv64 := 0x7FFF_0000_0000_0000

  /** static_cast of a signed 16-bit index to a word. */
  function Widened(idx: bv16): bv64 {
    if idx & 0x8000 == 0 then idx as bv64 else (idx as bv64) | 0xFFFF_FFFF_FFFF_0000
  }

  function IndexedWord(offset: bv64, idx: bv16): bv64 { offset | (Widened(idx) << 48) | MSB }

  function HashedWord(offset: bv64): bv64 { offset | MSB }

  predicate Marked(word: bv64) { word & MSB != 0 }

  function IndexOf(word: bv64): bv16 { ((word & IDX_BITS) >> 48) as bv16 }

  function OffsetOf(word: bv64): bv64 { word & LOWER_BITS }

  /** Appends the token to what has been written. */
  function Serialize(written: seq<Item>, t: Token): (w: seq<Item>) {
    match t
    case Single(offset) => written + [Word(offset)]
    case MultiIdx(offset, idx) => written + [Word(IndexedWord(offset, idx))]
    case Multi(offset, ident) => written + [Word(HashedWord(offset)), Hash(ident)]
  }

  /** Takes one token off the front. */
  function Deserialize(items: seq<Item>): (r: Read) {
    if items == [] || items[0].Hash? then Malformed else
      var word := items[0].bits;
      if !Marked(word) then Read(Single(word), items[1..]) else
        var idx := IndexOf(word);
        if idx != 0 then Read(MultiIdx(OffsetOf(word), idx), items[1..])
        else if |items| >= 2 && items[1].Hash? then Read(Multi(OffsetOf(word), items[1].ident), items[2..])
        else Malformed
  }

  /** The ranges the encoder asserts: offsets that leave the marker bits free, indices above 0. */
  predicate InRange(t: Token) {
    match t
    case Single(offset) => offset & MSB == 0
    case MultiIdx(offset, idx) => offset < 0x1_0000_0000_0000 && 0 < idx < 0x8000
    case Multi(offset, ident) => offset & UPPER_BITS == 0
  }

  /** Packing an index is undone exactly in range. */
  lemma IndexSurvives(offset: bv64, idx: bv16)
    ensures Marked(IndexedWord(offset, idx))
    ensures offset < 0x1_0000_0000_0000 && 0 < idx < 0x8000
      <==> IndexOf(IndexedWord(offset, idx)) == idx != 0 && OffsetOf(IndexedWord(offset, idx)) == offset
  {
  }

  lemma SingleSurvives(offset: bv64)
    ensures !Marked(offset) <==> offset & MSB == 0
  {
  }

  lemma HashOffsetSurvives(offset: bv64)
    ensures Marked(HashedWord(offset))
    ensures offset & UPPER_BITS == 0
      <==> IndexOf(HashedWord(offset)) == 0 && OffsetOf(HashedWord(offset)) == offset
  {
  }

  /** Where the parts of a token in range lie: a plain offset below bit 63; else bit 63 is set, the index is in
      bits 48 to 62, zero in front of a hash, and the offset below. */
  lemma WordLayout(offset: bv64, idx: bv16, ident: Ident)
    ensures Serialize([], Single(offset)) == [Word(offset)]
    ensures offset < 0x1_0000_0000_0000 && idx < 0x8000 ==>
      Serialize([], MultiIdx(offset, idx)) == [Word(0x8000_0000_0000_0000 + ((idx as bv64) << 48) + offset)]
    ensures offset < 0x1_0000_0000_0000 ==>
      Serialize([], Multi(offset, ident)) == [Word(0x8000_0000_0000_0000 + offset), Hash(ident)]
  {
    if offset < 0x1_0000_0000_0000 {
      WordParts(offset, idx);
    }
  }

  lemma WordParts(offset: bv64, idx: bv16)
    requires offset < 0x1_0000_0000_0000
    ensures idx < 0x8000 ==> IndexedWord(offset, idx) == 0x8000_0000_0000_0000 + ((idx as bv64) << 48) + offset
    ensures HashedWord(offset) == 0x8000_0000_0000_0000 + offset
  {
  }

  /** Reading after writing gives back the token and leaves the rest of the stream, exactly for the
      tokens in range: an index of 0 or a negative one, or an offset that reaches into the marker
      bits, does not survive. */
  lemma TokenRoundTrip(t: Token, rest: seq<Item>)
    ensures Deserialize(Serialize([], t) + rest) == Read(t, rest) <==> InRange(t)
  {
    hide IndexedWord, HashedWord, IndexOf, OffsetOf, Marked;
    var items := Serialize([], t) + rest;
    match t {
      case Single(offset) =>
        assert items[1..] == rest;
        SingleSurvives(offset);
      case MultiIdx(offset, idx) =>
        assert items[1..] == rest;
        IndexSurvives(offset, idx);
      case Multi(offset, ident) =>
        assert items[2..] == rest;
        HashOffsetSurvives(offset);
    }
  }

  /** Streams of tokens. */
  function SerializeAll(ts: seq<Token>): (w: seq<Item>)
    decreases |ts|
  {
    if ts == [] then [] else Serialize(SerializeAll(ts[..|ts| - 1]), ts[|ts| - 1])
  }

  lemma SerializeAppends(written: seq<Item>, t: Token)
    ensures Serialize(written, t) == written + Serialize([], t)
  {
  }

  lemma {:induction false} SerializeAllFront(t: Token, ts: seq<Token>)
    ensures SerializeAll([t] + ts) == Serialize([], t) + SerializeAll(ts)
    decreases |ts|
  {
    if ts == [] {
      assert ([t] + ts)[..0] == [];
    } else {
      var front, last := ts[..|ts| - 1], ts[|ts| - 1];
      SerializeAllFront(t, front);
      assert ([t] + ts)[..|ts|] == [t] + front;
      SerializeAppends(SerializeAll([t] + front), last);
      SerializeAppends(SerializeAll(front), last);
      assert (Serialize([], t) + SerializeAll(front)) + Serialize([], last)
          == Serialize([], t) + (SerializeAll(front) + Serialize([], last));
    }
  }

  /** The three encodings never collide: one stream of items comes from one sequence of tokens. */
  lemma {:induction false} StreamsDetermineTokens(ts: seq<Token>, us: seq<Token>)
    requires forall i :: 0 <= i < |ts| ==> InRange(ts[i])
    requires forall i :: 0 <= i < |us| ==> InRange(us[i])
    requires SerializeAll(ts) == SerializeAll(us)
    ensures ts == us
    decreases |ts|
  {
    if ts == [] || us == [] {
      NonEmptyStream(ts);
      NonEmptyStream(us);
    } else {
      var t, u := ts[0], us[0];
      assert ts == [t] + ts[1..] && us == [u] + us[1..];
      SerializeAllFront(t, ts[1..]);
      SerializeAllFront(u, us[1..]);
      TokenRoundTrip(t, SerializeAll(ts[1..]));
      TokenRoundTrip(u, SerializeAll(us[1..]));
      StreamsDetermineTokens(ts[1..], us[1..]);
    }
  }

  lemma NonEmptyStream(ts: seq<Token>)
    ensures ts != [] ==> SerializeAll(ts) != []
  {
  }
}
