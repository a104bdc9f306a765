/** The LZW raster of the GIF writer in src/web/qrcode.js, and the decoder that a GIF reader runs. */
module Lzw {
  import opened Basics
  import opened BitStrings

  const CLEAR_CODE := 4
  const END_CODE := 5
  /** The size at which the source stops adding entries. */
  const MAX_SIZE := 0xfff

  type Str = seq<nat>

  // ---------- the dictionary ----------

  const INITIAL: seq<Str> := [[0], [1], [2], [3], [CLEAR_CODE], [END_CODE]]

  ghost predicate Good(dict: seq<Str>) {
    && 6 <= |dict| <= MAX_SIZE
    && dict[..6] == INITIAL
    && (forall i, j :: 0 <= i < j < |dict| ==> dict[i] != dict[j])
    && (forall i :: 0 <= i < |dict| ==> dict[i] != [])
  }

  function IndexOf(dict: seq<Str>, s: Str): (k: nat)
    requires s in dict
    ensures k < |dict| && dict[k] == s
  {
    if dict[|dict| - 1] == s then |dict| - 1 else IndexOf(dict[..|dict| - 1], s)
  }

  lemma IndexOfUnique(dict: seq<Str>, k: nat)
    requires Good(dict) && k < |dict|
    ensures IndexOf(dict, dict[k]) == k
  {
  }

  function Grow(dict: seq<Str>, entry: Str): seq<Str> {
    if |dict| < MAX_SIZE then dict + [entry] else dict
  }

  /** lzwTable: keys to indices. */
  class LzwTable {
    var codes: map<Str, nat>
    var count: nat
    ghost var Entries: seq<Str>

    ghost predicate Valid()
      reads this
    {
      && |Entries| == count
      && (forall i :: 0 <= i < count ==> Entries[i] in codes && codes[Entries[i]] == i)
      && (forall s :: s in codes ==> codes[s] < count && Entries[codes[s]] == s)
    }

    constructor ()
      ensures Valid() && Entries == []
    {
      codes, count, Entries := map[], 0, [];
    }

    /** Throws 'dup key' exactly for a key that is present. */
    method Add(key: Str) returns (thrown: bool)
      requires Valid()
      modifies this
      ensures Valid()
      ensures thrown <==> key in old(Entries)
      ensures Entries == if thrown then old(Entries) else old(Entries) + [key]
    {
      if key in codes {
        return true;
      }
      codes := codes[key := count];
      count := count + 1;
      Entries := Entries + [key];
      thrown := false;
    }

    function Size(): (n: nat)
      requires Valid()
      reads this
      ensures n == |Entries|
    {
      count
    }

    function Index(key: Str): (k: nat)
      requires Valid() && key in Entries
      reads this
      ensures k < |Entries| && Entries[k] == key
    {
      codes[key]
    }

    predicate Contains(key: Str)
      requires Valid()
      reads this
      ensures Contains(key) <==> key in Entries
    {
      key in codes
    }
  }

  // ---------- code widths ----------

  /** The number of bits, at least three, that hold every number up to n. */
  function BitWidth(n: nat): nat {
    if n < 8 then 3 else 1 + BitWidth(n / 2)
  }

  lemma {:induction false} BitWidthBounds(n: nat)
    ensures BitWidth(n) >= 3
    ensures n < Pow2(BitWidth(n))
    ensures n >= 8 ==> Pow2(BitWidth(n) - 1) <= n
  {
    assert Pow2(3) == 8;
    if n >= 8 {
      BitWidthBounds(n / 2);
      if n / 2 < 8 {
        assert BitWidth(n) == 4 && Pow2(4) == 16;
      }
    }
  }

  lemma Pow2Unique(a: nat, b: nat, n: nat)
    requires Pow2(a) <= n < Pow2(b)
    ensures a < b
  {
    if b <= a {
      Pow2Monotone(b, a);
    }
  }

  /** How the width moves when the counter passes a power of two. */
  lemma BitWidthNext(n: nat)
    ensures BitWidth(n + 1) == if n + 1 == Pow2(BitWidth(n)) then BitWidth(n) + 1 else BitWidth(n)
  {
    var w, w' := BitWidth(n), BitWidth(n + 1);
    BitWidthBounds(n);
    BitWidthBounds(n + 1);
    assert Pow2(3) == 8;
    if n + 1 >= 8 {
      Pow2Unique(w' - 1, w + 1, n + 1);
      if n >= 8 {
        Pow2Unique(w - 1, w', n);
      }
      if n + 1 == Pow2(w) {
        Pow2Unique(w, w', n + 1);
      } else {
        Pow2Unique(w' - 1, w, n + 1);
      }
    }
  }

  // ---------- the encoder ----------

  /** The data codes as bits, and the table and code width that remain at the end. */
  datatype Encoded = Encoded(bits: seq<bool>, dict: seq<Str>, width: nat, last: Str)

  predicate Pixels(s: Str) {
    forall i :: 0 <= i < |s| ==> s[i] < CLEAR_CODE
  }

  function NextWidth(dict: seq<Str>, width: nat): nat {
    if |dict| < MAX_SIZE && |dict| == Pow2(width) then width + 1 else width
  }

  /** The code width always is the width of the largest code of the table. */
  lemma NextWidthFits(dict: seq<Str>, entry: Str)
    requires dict != []
    ensures NextWidth(dict, BitWidth(|dict| - 1)) == BitWidth(|Grow(dict, entry)| - 1)
  {
    BitWidthNext(|dict| - 1);
  }

  lemma InitialIn(dict: seq<Str>, p: nat)
    requires Good(dict) && p < 4
    ensures [p] in dict
  {
    assert dict[..6][p] == INITIAL[p];
  }

  lemma GrowGood(dict: seq<Str>, entry: Str)
    requires Good(dict) && entry !in dict && entry != []
    ensures Good(Grow(dict, entry))
    ensures forall s :: s in dict ==> s in Grow(dict, entry)
  {
    if |dict| < MAX_SIZE {
      assert (dict + [entry])[..6] == dict[..6];
    }
  }

  /** The loop over the pixels, from the state with `s` matched and `rest` unread. */
  function Encode(dict: seq<Str>, width: nat, s: Str, rest: Str): (e: Encoded)
    requires Good(dict) && s in dict
    requires Pixels(rest)
    ensures Good(e.dict) && e.last in e.dict
    decreases rest
  {
    if rest == [] then Encoded(ToBits(IndexOf(dict, s), width), dict, width, s)
    else
      var c := [rest[0]];
      InitialIn(dict, rest[0]);
      if s + c in dict then Encode(dict, width, s + c, rest[1..])
      else
        var grown := Grow(dict, s + c);
        GrowGood(dict, s + c);
        var tail := Encode(grown, NextWidth(dict, width), c, rest[1..]);
        tail.(bits := ToBits(IndexOf(dict, s), width) + tail.bits)
  }

  /** One round of the encoder. */
  lemma EncodeStep(dict: seq<Str>, width: nat, s: Str, rest: Str)
    requires Good(dict) && s in dict && Pixels(rest)
    ensures rest == [] ==> Encode(dict, width, s, rest) == Encoded(ToBits(IndexOf(dict, s), width), dict, width, s)
    ensures rest != [] ==> Pixels(rest[1..]) && Pixels([rest[0]]) && [rest[0]] in dict
    ensures rest != [] && s + [rest[0]] in dict ==>
      Encode(dict, width, s, rest) == Encode(dict, width, s + [rest[0]], rest[1..])
    ensures rest != [] && s + [rest[0]] !in dict ==>
      var grown := Grow(dict, s + [rest[0]]);
      && Good(grown) && [rest[0]] in grown
      && var tail := Encode(grown, NextWidth(dict, width), [rest[0]], rest[1..]);
      && Encode(dict, width, s, rest) == tail.(bits := ToBits(IndexOf(dict, s), width) + tail.bits)
  {
    hide Good, IndexOf, ToBits, NextWidth, Grow;
    if rest != [] {
      InitialIn(dict, rest[0]);
      if s + [rest[0]] !in dict {
        GrowGood(dict, s + [rest[0]]);
      }
    }
  }

  lemma {:induction false} EncodeWidth(dict: seq<Str>, s: Str, rest: Str)
    requires Good(dict) && s in dict && Pixels(rest)
    ensures var e := Encode(dict, BitWidth(|dict| - 1), s, rest);
      e.width == BitWidth(|e.dict| - 1)
    decreases rest
  {
    hide Good, Grow, IndexOf, BitWidth, NextWidth, ToBits, Encode, Pixels;
    EncodeStep(dict, BitWidth(|dict| - 1), s, rest);
    if rest == [] {
    } else if s + [rest[0]] in dict {
      EncodeWidth(dict, s + [rest[0]], rest[1..]);
    } else {
      NextWidthFits(dict, s + [rest[0]]);
      EncodeWidth(Grow(dict, s + [rest[0]]), [rest[0]], rest[1..]);
    }
  }

  // ---------- the decoder of a GIF reader ----------

  function Prepend(s: Str, r: Option<Str>): Option<Str> {
    match r
    case None => None
    case Some(t) => Some(s + t)
  }

  /** What the code just read stands for; `prev` is empty right after a clear code. The code that is
      about to be defined stands for the previous string and its own first pixel. */
  function Entry(dict: seq<Str>, prev: Str, code: nat): Option<Str> {
    if code < |dict| then Some(dict[code])
    else if code == |dict| && prev != [] then Some(prev + [prev[0]])
    else None
  }

  lemma WidthPositive(n: nat)
    ensures BitWidth(n) > 0
  {
    BitWidthBounds(n);
  }

  /** A reader's table holds up to 4096 strings, and its codes have at most 12 bits (appendix F of GIF89a). */
  function Learned(dict: seq<Str>, entry: Str): seq<Str> {
    if |dict| < 4096 then dict + [entry] else dict
  }

  function ReaderWidth(dict: seq<Str>): (w: nat)
    ensures w > 0
  {
    WidthPositive(|dict|);
    if |dict| < 4096 then BitWidth(|dict|) else 12
  }

  /** The reader's table after a code for a string that starts with `first`. */
  function Caught(dict: seq<Str>, prev: Str, first: nat): seq<Str> {
    if prev == [] then dict else Learned(dict, prev + [first])
  }

  /** Reads the codes of pixels of two bits until the end code 5; the code 4 clears the table. None for a
      truncated or undefined code. The reader's table is one entry behind the writer's, and its code width
      follows from its own table. */
  function Decode(dict: seq<Str>, prev: Str, bits: seq<bool>): Option<Str>
    decreases |bits|
  {
    var w := ReaderWidth(dict);
    if |bits| < w then None
    else
      var code := FromBits(bits[..w]);
      var rest := bits[w..];
      if code == 4 then Decode(INITIAL, [], rest)
      else if code == 5 then Some([])
      else
        match Entry(dict, prev, code)
        case None => None
        case Some(entry) =>
          if entry == [] then None else Prepend(entry, Decode(Caught(dict, prev, entry[0]), entry, rest))
  }

  /** The four colours stand for themselves. */
  lemma PixelCodes(p: nat)
    requires p < 4
    ensures INITIAL[p] == [p] && |INITIAL| == 6
  {
  }

  /** The reader's table when it has caught up: the writer stops at 4095 strings, the reader at 4096. */
  ghost predicate Ahead(dict: seq<Str>, reader: seq<Str>) {
    if |dict| < MAX_SIZE then reader == dict
    else MAX_SIZE == |dict| <= |reader| <= 4096 && reader[..MAX_SIZE] == dict
  }

  /** The reader's table while the writer, with table `dict`, is matching a string that starts with `first`. */
  ghost predicate Lags(dict: seq<Str>, reader: seq<Str>, prev: Str, first: nat) {
    if prev == [] then reader == dict == INITIAL
    else if |reader| < MAX_SIZE then dict == reader + [prev + [first]]
    else |reader| <= 4096 && dict == reader[..MAX_SIZE]
  }

  lemma LagsAfter(dict: seq<Str>, reader: seq<Str>, s: Str, next: nat)
    requires Good(dict) && s != [] && Ahead(dict, reader)
    ensures Lags(Grow(dict, s + [next]), reader, s, next)
  {
  }

  lemma CatchesUp(dict: seq<Str>, reader: seq<Str>, prev: Str, first: nat)
    requires Good(dict) && Lags(dict, reader, prev, first)
    ensures Ahead(dict, Caught(reader, prev, first))
  {
  }

  lemma EdgeWidths()
    ensures BitWidth(5) == 3 && BitWidth(6) == 3
    ensures BitWidth(4094) == 12 && BitWidth(4095) == 12
  {
    assert BitWidth(63) == 6;
    assert BitWidth(511) == 9;
  }

  lemma LagWidth(dict: seq<Str>, reader: seq<Str>, prev: Str, first: nat)
    requires Good(dict) && Lags(dict, reader, prev, first)
    ensures ReaderWidth(reader) == BitWidth(|dict| - 1)
  {
    hide BitWidth;
    EdgeWidths();
    hide Good;
  }

  lemma EntryOfCode(dict: seq<Str>, reader: seq<Str>, prev: Str, s: Str)
    requires Good(dict) && s in dict && s != [] && Pixels(s) && Lags(dict, reader, prev, s[0])
    ensures var k := IndexOf(dict, s);
      && k < Pow2(BitWidth(|dict| - 1))
      && k != CLEAR_CODE && k != END_CODE
      && Entry(reader, prev, k) == Some(s)
  {
    var k := IndexOf(dict, s);
    BitWidthBounds(|dict| - 1);
    if prev != [] && k == |reader| {
      assert s == prev + [s[0]];
      assert s[0] == prev[0];
    }
  }

  /** One code: the reader gets the string back and catches up with the writer's table. */
  lemma DecodeStep(dict: seq<Str>, reader: seq<Str>, prev: Str, s: Str, tail: seq<bool>)
    requires Good(dict) && s in dict && s != [] && Pixels(s) && Lags(dict, reader, prev, s[0])
    ensures var code := ToBits(IndexOf(dict, s), BitWidth(|dict| - 1));
      Decode(reader, prev, code + tail) == Prepend(s, Decode(Caught(reader, prev, s[0]), s, tail))
    ensures Ahead(dict, Caught(reader, prev, s[0]))
  {
    CatchesUp(dict, reader, prev, s[0]);
    var k, w := IndexOf(dict, s), BitWidth(|dict| - 1);
    LagWidth(dict, reader, prev, s[0]);
    EntryOfCode(dict, reader, prev, s);
    FromToBits(k, w);
    hide IndexOf, BitWidth, ToBits, FromBits, Entry, Prepend, Pow2, ReaderWidth, Caught, Ahead, Lags;
    var bits := ToBits(k, w) + tail;
    assert bits[..w] == ToBits(k, w) && bits[w..] == tail;
  }

  lemma PrependTwice(s: Str, t: Str, r: Option<Str>)
    ensures Prepend(s, Prepend(t, r)) == Prepend(s + t, r)
  {
    if r.Some? {
      assert s + (t + r.value) == s + t + r.value;
    }
  }

  lemma LongerPixels(s: Str, p: nat)
    requires Pixels(s) && Pixels([p]) && s != []
    ensures Pixels(s + [p]) && s + [p] != [] && (s + [p])[0] == s[0]
  {
    assert [p][0] < CLEAR_CODE;
  }

  /** Reading the codes gives the matched string and the unread pixels back. */
  lemma {:induction false} DecodeEncode(dict: seq<Str>, reader: seq<Str>, prev: Str, s: Str, rest: Str, tail: seq<bool>)
    returns (last: seq<Str>)
    requires Good(dict) && s in dict && s != [] && Pixels(s) && Lags(dict, reader, prev, s[0])
    requires Pixels(rest)
    ensures var e := Encode(dict, BitWidth(|dict| - 1), s, rest);
      && Ahead(e.dict, last)
      && Decode(reader, prev, e.bits + tail) == Prepend(s + rest, Decode(last, e.last, tail))
    decreases rest
  {
    hide Good, Lags, IndexOf, BitWidth, NextWidth, ToBits, Decode, Prepend, Grow, Encode, Caught, Ahead, Pixels;
    var width := BitWidth(|dict| - 1);
    EncodeStep(dict, width, s, rest);
    if rest == [] {
      DecodeStep(dict, reader, prev, s, tail);
      assert s + rest == s;
      last := Caught(reader, prev, s[0]);
    } else if s + [rest[0]] in dict {
      assert s + rest == (s + [rest[0]]) + rest[1..];
      LongerPixels(s, rest[0]);
      last := DecodeEncode(dict, reader, prev, s + [rest[0]], rest[1..], tail);
    } else {
      var c := [rest[0]];
      var grown, caught := Grow(dict, s + c), Caught(reader, prev, s[0]);
      NextWidthFits(dict, s + c);
      var e := Encode(grown, BitWidth(|grown| - 1), c, rest[1..]);
      DecodeStep(dict, reader, prev, s, e.bits + tail);
      LagsAfter(dict, caught, s, rest[0]);
      last := DecodeEncode(grown, caught, s, c, rest[1..], tail);
      PrependTwice(s, c + rest[1..], Decode(last, e.last, tail));
      Assoc(ToBits(IndexOf(dict, s), width), e.bits, tail);
      assert s + rest == s + (c + rest[1..]);
    }
  }

  // ---------- the raster ----------

  lemma InitialGood()
    ensures Good(INITIAL)
  {
  }

  /** The encoder's run over a whole image. */
  function EncodeImage(data: Str): Encoded
    requires data != [] && Pixels(data)
  {
    InitialGood();
    InitialIn(INITIAL, data[0]);
    Encode(INITIAL, 3, [data[0]], data[1..])
  }

  /** Clear code, data codes, end code. */
  function RasterBits(data: Str): seq<bool>
    requires data != [] && Pixels(data)
  {
    ToBits(CLEAR_CODE, 3) + EncodeImage(data).bits + ToBits(END_CODE, EncodeImage(data).width)
  }

  method NewTable() returns (table: LzwTable)
    ensures fresh(table) && table.Valid() && table.Entries == INITIAL
  {
    table := new LzwTable();
    for i := 0 to 6
      invariant table.Valid() && fresh(table) && table.Entries == INITIAL[..i]
    {
      var dup := table.Add([i]);
    }
  }

  /** The bits written so far and the bits still to come make up the image's raster. */
  ghost predicate OnTrack(data: Str, dict: seq<Str>, width: nat, s: Str, rest: Str, written: seq<bool>) {
    && data != [] && Pixels(data)
    && Good(dict) && s in dict && Pixels(rest)
    && width == BitWidth(|dict| - 1)
    && var e := Encode(dict, width, s, rest);
    && written + e.bits == ToBits(CLEAR_CODE, 3) + EncodeImage(data).bits
    && e.width == EncodeImage(data).width
  }

  lemma FirstWidth()
    ensures BitWidth(5) == 3 && CLEAR_CODE < Pow2(3)
  {
  }

  lemma OnTrackStart(data: Str)
    requires data != [] && Pixels(data)
    ensures OnTrack(data, INITIAL, 3, [data[0]], data[1..], ToBits(CLEAR_CODE, 3))
  {
    InitialGood();
    InitialIn(INITIAL, data[0]);
    FirstWidth();
  }

  lemma OnTrackStep(data: Str, dict: seq<Str>, width: nat, s: Str, rest: Str, written: seq<bool>)
    requires rest != [] && OnTrack(data, dict, width, s, rest, written)
    ensures var entry := s + [rest[0]];
      if entry in dict then OnTrack(data, dict, width, entry, rest[1..], written)
      else OnTrack(data, Grow(dict, entry), NextWidth(dict, width), [rest[0]], rest[1..],
                   written + ToBits(IndexOf(dict, s), width))
  {
    hide Good, Grow, IndexOf, BitWidth, NextWidth, ToBits, EncodeImage, Encode, Pixels;
    var entry := s + [rest[0]];
    EncodeStep(dict, width, s, rest);
    if entry !in dict {
      NextWidthFits(dict, entry);
      Assoc(written, ToBits(IndexOf(dict, s), width),
            Encode(Grow(dict, entry), NextWidth(dict, width), [rest[0]], rest[1..]).bits);
    }
  }

  lemma OnTrackEnd(data: Str, dict: seq<Str>, width: nat, s: Str, written: seq<bool>)
    requires OnTrack(data, dict, width, s, [], written)
    ensures written + ToBits(IndexOf(dict, s), width) + ToBits(END_CODE, width) == RasterBits(data)
  {
  }

  /** No code is too wide for the current width. */
  lemma CodeFits(dict: seq<Str>, s: Str)
    requires Good(dict) && s in dict
    ensures IndexOf(dict, s) < Pow2(BitWidth(|dict| - 1))
    ensures END_CODE < Pow2(BitWidth(|dict| - 1))
  {
    BitWidthBounds(|dict| - 1);
    Pow2Monotone(3, BitWidth(|dict| - 1));
    assert Pow2(3) == 8;
  }

  lemma OnTrackFacts(data: Str, dict: seq<Str>, width: nat, s: Str, rest: Str, written: seq<bool>)
    requires OnTrack(data, dict, width, s, rest, written)
    ensures Good(dict) && s in dict
    ensures IndexOf(dict, s) < Pow2(width) && END_CODE < Pow2(width)
  {
    CodeFits(dict, s);
  }

  lemma GrowUnfold(dict: seq<Str>, entry: Str, width: nat)
    ensures Grow(dict, entry) == if |dict| < MAX_SIZE then dict + [entry] else dict
    ensures NextWidth(dict, width) == if |dict| < MAX_SIZE && |dict| == Pow2(width) then width + 1 else width
  {
  }

  /** The last code, the end code, and the bits that wait. */
  method WriteEnd(table: LzwTable, bitOut: BitOutputStream, bitLength: nat, s: Str)
    requires table.Valid() && bitOut.Valid() && Good(table.Entries) && s in table.Entries
    requires IndexOf(table.Entries, s) < Pow2(bitLength) && END_CODE < Pow2(bitLength)
    modifies bitOut
    ensures var bits := old(bitOut.Contents()) + ToBits(IndexOf(table.Entries, s), bitLength) + ToBits(END_CODE, bitLength);
      ByteBits(bitOut.out) == bits + Zeros(PadTo8(|bits|))
  {
    IndexOfUnique(table.Entries, table.Index(s));
    hide Good, Pow2, ToBits, IndexOf, LzwTable.Valid, BitOutputStream.Valid, BitOutputStream.Contents, ByteBits,
      PadTo8, Zeros;
    var over := bitOut.Write(table.Index(s), bitLength);
    over := bitOut.Write(END_CODE, bitLength);
    bitOut.Flush();
  }

  /** The branch of the loop for a sequence that is not in the table: its code goes out, and the table grows,
      with the bit length, until it is full. */
  method WriteCode(table: LzwTable, bitOut: BitOutputStream, bitLength: nat, s: Str, entry: Str) returns (bitLength': nat)
    requires table.Valid() && bitOut.Valid() && Good(table.Entries) && s in table.Entries && entry !in table.Entries
    requires IndexOf(table.Entries, s) < Pow2(bitLength)
    modifies table, bitOut
    ensures table.Valid() && bitOut.Valid()
    ensures table.Entries == Grow(old(table.Entries), entry) && bitLength' == NextWidth(old(table.Entries), bitLength)
    ensures bitOut.Contents() == old(bitOut.Contents()) + ToBits(IndexOf(old(table.Entries), s), bitLength)
  {
    IndexOfUnique(table.Entries, table.Index(s));
    GrowUnfold(table.Entries, entry, bitLength);
    hide Good, Pow2, ToBits, IndexOf, Grow, NextWidth, LzwTable.Valid, BitOutputStream.Valid, BitOutputStream.Contents;
    var over := bitOut.Write(table.Index(s), bitLength);
    bitLength' := bitLength;
    if table.Size() < MAX_SIZE {
      if table.Size() == Pow2(bitLength) {
        bitLength' := bitLength + 1;
      }
      var dup := table.Add(entry);
    }
  }

  method GetLzwRaster(data: Str) returns (bytes: seq<nat>)
    requires data != [] && Pixels(data)
    ensures ByteBits(bytes) == RasterBits(data) + Zeros(PadTo8(|RasterBits(data)|))
  {
    OnTrackStart(data);
    FirstWidth();
    hide BitWidth, Pow2, ToBits, IndexOf, RasterBits, ByteBits, PadTo8, Zeros, Grow, NextWidth, OnTrack, Good, Pixels, Encode,
      EncodeImage;
    hide LzwTable.Valid, BitOutputStream.Valid, BitOutputStream.Contents;
    var table := NewTable();
    var bitOut := new BitOutputStream();
    var bitLength := 3;
    var over := bitOut.Write(CLEAR_CODE, bitLength);
    assert bitOut.Contents() == ToBits(CLEAR_CODE, 3);
    var dataIndex := 1;
    var s := [data[0]];
    while dataIndex < |data|
      invariant 1 <= dataIndex <= |data|
      invariant table.Valid() && fresh(table) && bitOut.Valid() && fresh(bitOut)
      invariant OnTrack(data, table.Entries, bitLength, s, data[dataIndex..], bitOut.Contents())
    {
      OnTrackStep(data, table.Entries, bitLength, s, data[dataIndex..], bitOut.Contents());
      OnTrackFacts(data, table.Entries, bitLength, s, data[dataIndex..], bitOut.Contents());
      var c := [data[dataIndex]];
      dataIndex := dataIndex + 1;
      assert data[dataIndex - 1..][1..] == data[dataIndex..];
      if table.Contains(s + c) {
        s := s + c;
      } else {
        bitLength := WriteCode(table, bitOut, bitLength, s, s + c);
        s := c;
      }
    }
    assert data[dataIndex..] == [];
    OnTrackEnd(data, table.Entries, bitLength, s, bitOut.Contents());
    OnTrackFacts(data, table.Entries, bitLength, s, [], bitOut.Contents());
    WriteEnd(table, bitOut, bitLength, s);
    bytes := bitOut.out;
  }

  lemma DecodeClear(rest: seq<bool>)
    ensures Decode(INITIAL, [], ToBits(CLEAR_CODE, 3) + rest) == Decode(INITIAL, [], rest)
  {
    assert BitWidth(6) == 3 && Pow2(3) == 8;
    FromToBits(CLEAR_CODE, 3);
    var bits := ToBits(CLEAR_CODE, 3) + rest;
    hide BitWidth, ToBits, FromBits;
    assert bits[..3] == ToBits(CLEAR_CODE, 3) && bits[3..] == rest;
  }

  lemma AheadWidth(dict: seq<Str>, reader: seq<Str>)
    requires Good(dict) && Ahead(dict, reader)
    ensures if |dict| < MAX_SIZE then ReaderWidth(reader) == BitWidth(|dict|) else ReaderWidth(reader) == BitWidth(|dict| - 1)
    ensures |dict| == MAX_SIZE ==> BitWidth(|dict|) == BitWidth(|dict| - 1)
  {
    EdgeWidths();
    hide BitWidth, Good;
  }

  lemma DecodeEnd(dict: seq<Str>, reader: seq<Str>, last: Str, pad: nat)
    requires Good(dict) && Ahead(dict, reader) && pad < 8
    ensures var w := BitWidth(|dict| - 1);
      Decode(reader, last, ToBits(END_CODE, w) + Zeros(pad)) ==
        if |dict| == Pow2(w) && pad == 0 then None else Some([])
  {
    var w := BitWidth(|dict| - 1);
    BitWidthNext(|dict| - 1);
    AheadWidth(dict, reader);
    CodeFits(dict, dict[0]);
    FromToBits(END_CODE, w);
    assert Pow2(w + 1) == 2 * Pow2(w);
    FromToBits(END_CODE, w + 1);
    PadZeros(END_CODE, w, 1);
    var bits := ToBits(END_CODE, w) + Zeros(pad);
    hide BitWidth, ToBits, FromBits, Pow2, ReaderWidth, Ahead;
    assert bits[..w] == ToBits(END_CODE, w);
    if pad > 0 {
      assert bits[..w + 1] == ToBits(END_CODE, w) + Zeros(1);
    }
  }

  lemma StartLags(c: nat)
    ensures Lags(INITIAL, INITIAL, [], c)
  {
  }

  lemma DecodeRun(s: Str, rest: Str, pad: nat)
    requires Good(INITIAL) && s in INITIAL && s != [] && Pixels(s) && Pixels(rest) && pad < 8
    ensures var e := Encode(INITIAL, BitWidth(|INITIAL| - 1), s, rest);
      Decode(INITIAL, [], ToBits(CLEAR_CODE, 3) + e.bits + ToBits(END_CODE, e.width) + Zeros(pad)) ==
        Prepend(s + rest, if |e.dict| == Pow2(e.width) && pad == 0 then None else Some([]))
  {
    StartLags(s[0]);
    hide *;
    var e := Encode(INITIAL, BitWidth(|INITIAL| - 1), s, rest);
    var end := ToBits(END_CODE, e.width);
    EncodeWidth(INITIAL, s, rest);
    var last := DecodeEncode(INITIAL, INITIAL, [], s, rest, end + Zeros(pad));
    DecodeClear(e.bits + (end + Zeros(pad)));
    DecodeEnd(e.dict, last, e.last, pad);
    Assoc4(ToBits(CLEAR_CODE, 3), e.bits, end, Zeros(pad));
  }

  lemma ImageStart(data: Str)
    requires data != [] && Pixels(data)
    ensures Good(INITIAL) && [data[0]] in INITIAL && |INITIAL| == 6
    ensures Pixels([data[0]]) && Pixels(data[1..]) && [data[0]] + data[1..] == data
    ensures Lags(INITIAL, INITIAL, [], data[0])
    ensures EncodeImage(data) == Encode(INITIAL, BitWidth(|INITIAL| - 1), [data[0]], data[1..])
  {
    InitialGood();
    InitialIn(INITIAL, data[0]);
    FirstWidth();
  }

  lemma PrependEnd(data: Str)
    ensures Prepend(data, Some([])) == Some(data) && Prepend(data, None) == None
  {
    assert data + [] == data;
  }

  lemma DecodeRaster(data: Str, pad: nat)
    requires data != [] && Pixels(data) && pad < 8
    ensures var e := EncodeImage(data);
      Decode(INITIAL, [], RasterBits(data) + Zeros(pad)) ==
        if |e.dict| == Pow2(e.width) && pad == 0 then None else Some(data)
  {
    ImageStart(data);
    DecodeRun([data[0]], data[1..], pad);
    PrependEnd(data);
  }

  lemma PadFacts(n: nat)
    ensures PadTo8(n) < 8 && (PadTo8(n) == 0 <==> n % 8 == 0)
  {
  }

  // ---------- when the end code is cut short ----------

  /** The widths of the codes written while the table grows from six entries to n. */
  function WidthSum(n: nat): nat {
    if n < 6 then 0 else WidthSum(n - 1) + BitWidth(n - 1)
  }

  lemma GrowSize(dict: seq<Str>, s: Str, rest: Str)
    ensures rest != [] ==> |Grow(dict, s + [rest[0]])| == if |dict| < MAX_SIZE then |dict| + 1 else |dict|
  {
  }

  /** The bits written from a table of n entries on, unless the table fills up. */
  predicate Measured(e: Encoded, n: nat) {
    |e.dict| >= n >= 6 && (|e.dict| < MAX_SIZE ==> |e.bits| == WidthSum(|e.dict|) - WidthSum(n - 1))
  }

  lemma WidthStep(n: nat)
    requires n >= 6
    ensures WidthSum(n) == WidthSum(n - 1) + BitWidth(n - 1)
  {
  }

  lemma MeasuredLast(e: Encoded)
    requires |e.dict| >= 6 && |e.bits| == BitWidth(|e.dict| - 1)
    ensures Measured(e, |e.dict|)
  {
    WidthStep(|e.dict|);
  }

  lemma MeasuredMore(tail: Encoded, code: seq<bool>, n: nat, grown: nat)
    requires n >= 6 && |code| == BitWidth(n - 1) && grown == (if n < MAX_SIZE then n + 1 else n) && Measured(tail, grown)
    ensures Measured(tail.(bits := code + tail.bits), n)
  {
    WidthStep(n);
  }

  lemma AtLeastSix(dict: seq<Str>)
    requires Good(dict)
    ensures |dict| >= 6
  {
  }

  /** Below the largest table the number of data bits depends on the final size alone. */
  lemma {:induction false} EncodeLength(dict: seq<Str>, s: Str, rest: Str)
    requires Good(dict) && s in dict && Pixels(rest)
    ensures Measured(Encode(dict, BitWidth(|dict| - 1), s, rest), |dict|)
    decreases rest
  {
    AtLeastSix(dict);
    hide Good, Grow, IndexOf, BitWidth, NextWidth, ToBits, WidthSum, Encode, Pixels, Measured;
    var width := BitWidth(|dict| - 1);
    GrowSize(dict, s, rest);
    EncodeStep(dict, width, s, rest);
    if rest == [] {
      MeasuredLast(Encode(dict, width, s, rest));
    } else if s + [rest[0]] in dict {
      EncodeLength(dict, s + [rest[0]], rest[1..]);
    } else {
      var grown := Grow(dict, s + [rest[0]]);
      NextWidthFits(dict, s + [rest[0]]);
      EncodeLength(grown, [rest[0]], rest[1..]);
      MeasuredMore(Encode(grown, NextWidth(dict, width), [rest[0]], rest[1..]), ToBits(IndexOf(dict, s), width),
                   |dict|, |grown|);
    }
  }

  lemma WidthBetween(w: nat, n: nat)
    requires w >= 3 && Pow2(w) <= n < Pow2(w + 1)
    ensures BitWidth(n) == w + 1
  {
    BitWidthBounds(n);
    Pow2Monotone(3, w);
    assert Pow2(3) == 8;
    Pow2Unique(w, BitWidth(n), n);
    Pow2Unique(BitWidth(n) - 1, w + 1, n);
  }

  lemma SmallPowers()
    ensures Pow2(3) == 8 && Pow2(4) == 16 && Pow2(5) == 32 && Pow2(11) == 2048 && Pow2(12) == 4096
    ensures BitWidth(15) == 4
  {
    assert Pow2(6) == 64 && Pow2(9) == 512;
  }

  lemma OneWidth(w: nat, n: nat)
    requires w >= 3 && 8 <= Pow2(w) <= n < Pow2(w + 1)
    ensures WidthSum(n + 1) == WidthSum(n) + w + 1
  {
    WidthBetween(w, n);
    WidthStep(n + 1);
  }

  lemma EightWidths(w: nat, x: nat)
    requires w >= 3 && 8 <= Pow2(w) <= x && x + 8 <= Pow2(w + 1)
    ensures WidthSum(x + 8) == WidthSum(x) + 8 * (w + 1)
  {
    hide *;
    OneWidth(w, x);
    OneWidth(w, x + 1);
    OneWidth(w, x + 2);
    OneWidth(w, x + 3);
    OneWidth(w, x + 4);
    OneWidth(w, x + 5);
    OneWidth(w, x + 6);
    OneWidth(w, x + 7);
  }

  lemma {:induction false} EightMore(w: nat, i: nat)
    requires w >= 3 && Pow2(w) + 8 * i <= Pow2(w + 1)
    ensures WidthSum(Pow2(w) + 8 * i) % 8 == WidthSum(Pow2(w)) % 8
  {
    hide WidthSum, BitWidth, Pow2;
    if i == 0 {
    } else {
      EightMore(w, i - 1);
      Pow2Monotone(3, w);
      SmallPowers();
      EightWidths(w, Pow2(w) + 8 * (i - 1));
    }
  }

  lemma {:induction false} Pow2Eights(w: nat)
    requires w >= 3
    ensures Pow2(w) % 8 == 0
  {
    if w == 3 {
      assert Pow2(3) == 8;
    } else {
      Pow2Eights(w - 1);
    }
  }

  /** At a table size that is a power of two, the data bits make up whole bytes and one bit. */
  lemma {:induction false} WidthSumAtPower(w: nat)
    requires w >= 3
    ensures WidthSum(Pow2(w)) % 8 == 1
  {
    if w == 3 {
      assert Pow2(3) == 8;
      assert BitWidth(5) == BitWidth(6) == BitWidth(7) == 3;
      WidthStep(6);
      WidthStep(7);
      WidthStep(8);
      assert WidthSum(5) == 0;
      assert WidthSum(8) == 9;
    } else {
      WidthSumAtPower(w - 1);
      Pow2Eights(w - 1);
      hide WidthSum, BitWidth;
      assert Pow2(w) == Pow2(w - 1) + 8 * (Pow2(w - 1) / 8);
      EightMore(w - 1, Pow2(w - 1) / 8);
    }
  }

  lemma PowerWidth(n: nat, w: nat)
    requires 6 <= n <= MAX_SIZE && w == BitWidth(n - 1) && n == Pow2(w)
    ensures 3 <= w < 12 && n < MAX_SIZE && n % 8 == 0 && (w == 4 <==> n == 16)
  {
    BitWidthBounds(n - 1);
    SmallPowers();
    Pow2Eights(w);
    hide BitWidth, Pow2;
    if w >= 12 {
      Pow2Monotone(12, w);
    } else {
      Pow2Monotone(w, 11);
      if w > 4 {
        Pow2Monotone(5, w);
      }
    }
  }

  lemma RestOfEight(sum: nat, w: nat)
    requires sum % 8 == 1 && 3 <= w < 12
    ensures (3 + sum + w) % 8 == 0 <==> w == 4
  {
    var q := sum / 8;
    assert 3 + sum + w == 8 * q + (4 + w);
  }

  /** Of the table sizes that are powers of two only sixteen makes the raster end with a byte. */
  lemma WholeBytes(n: nat, w: nat)
    requires 6 <= n <= MAX_SIZE && w == BitWidth(n - 1)
    ensures n == Pow2(w) ==> n < MAX_SIZE
    ensures n == Pow2(w) && (3 + WidthSum(n) + w) % 8 == 0 <==> n == 16
  {
    hide *;
    SmallPowers();
    if n == Pow2(w) {
      PowerWidth(n, w);
      WidthSumAtPower(w);
      RestOfEight(WidthSum(n), w);
    }
  }

  lemma RasterSize(data: Str)
    requires data != [] && Pixels(data)
    ensures var e := EncodeImage(data);
      && 6 <= |e.dict| <= MAX_SIZE && e.width == BitWidth(|e.dict| - 1)
      && (|e.dict| < MAX_SIZE ==> |RasterBits(data)| == 3 + WidthSum(|e.dict|) + e.width)
  {
    ImageStart(data);
    EncodeLength(INITIAL, [data[0]], data[1..]);
    EncodeWidth(INITIAL, [data[0]], data[1..]);
    assert WidthSum(5) == 0;
    var e := EncodeImage(data);
    assert Good(e.dict);
    hide BitWidth, EncodeImage, Encode, ToBits;
  }

  lemma RasterLength(data: Str)
    requires data != [] && Pixels(data)
    ensures var e := EncodeImage(data);
      |e.dict| == Pow2(e.width) && |RasterBits(data)| % 8 == 0 <==> |e.dict| == 16
  {
    hide BitWidth, Pow2, WidthSum, EncodeImage, RasterBits;
    var e := EncodeImage(data);
    RasterSize(data);
    WholeBytes(|e.dict|, e.width);
  }

  /** The pixels that the codes can stand for while the table grows from six entries to n. */
  function Reach(n: nat): nat {
    if n < 6 then 0 else Reach(n - 1) + (n - 5)
  }

  ghost predicate Short(dict: seq<Str>) {
    forall i :: 0 <= i < |dict| ==> |dict[i]| <= |dict| - 5
  }

  lemma ShortEntry(dict: seq<Str>, s: Str)
    requires Short(dict) && s in dict
    ensures |s| <= |dict| - 5
  {
  }

  lemma ShortGrows(dict: seq<Str>, entry: Str)
    requires Short(dict) && |dict| < MAX_SIZE && |entry| <= |dict| - 4
    ensures Short(Grow(dict, entry)) && |Grow(dict, entry)| == |dict| + 1
  {
  }

  /** The codes written from a table of n entries on stand for at most so many pixels. */
  predicate Spans(e: Encoded, n: nat, count: nat) {
    |e.dict| < MAX_SIZE ==> n >= 1 && count <= Reach(|e.dict|) - Reach(n - 1)
  }

  lemma ReachStep(n: nat)
    requires n >= 6
    ensures Reach(n) == Reach(n - 1) + (n - 5)
  {
  }

  lemma SpansLast(e: Encoded, n: nat, count: nat)
    requires n >= 6 && |e.dict| == n && count <= n - 5
    ensures Spans(e, n, count)
  {
    ReachStep(n);
  }

  lemma SpansMore(e: Encoded, tail: Encoded, n: nat, first: nat, count: nat)
    requires n >= 6 && e.dict == tail.dict && first <= n - 5
    requires if n < MAX_SIZE then Spans(tail, n + 1, count) else |tail.dict| >= MAX_SIZE
    ensures Spans(e, n, first + count)
  {
    ReachStep(n);
  }

  lemma NeverSmaller(e: Encoded, n: nat)
    requires Measured(e, n)
    ensures |e.dict| >= n
  {
  }

  /** A small table means a small image. */
  lemma {:induction false} EncodeReach(dict: seq<Str>, s: Str, rest: Str)
    requires Good(dict) && s in dict && Pixels(rest) && Short(dict)
    ensures Spans(Encode(dict, BitWidth(|dict| - 1), s, rest), |dict|, |s| + |rest|)
    decreases rest
  {
    AtLeastSix(dict);
    hide Good, Grow, IndexOf, BitWidth, NextWidth, ToBits, Reach, Encode, Pixels, Short, Spans, Measured;
    var width := BitWidth(|dict| - 1);
    var e := Encode(dict, width, s, rest);
    ShortEntry(dict, s);
    EncodeStep(dict, width, s, rest);
    if rest == [] {
      SpansLast(e, |dict|, |s|);
    } else if s + [rest[0]] in dict {
      EncodeReach(dict, s + [rest[0]], rest[1..]);
    } else {
      var grown := Grow(dict, s + [rest[0]]);
      var tail := Encode(grown, NextWidth(dict, width), [rest[0]], rest[1..]);
      NextWidthFits(dict, s + [rest[0]]);
      GrowSize(dict, s, rest);
      EncodeLength(grown, [rest[0]], rest[1..]);
      NeverSmaller(tail, |grown|);
      if |dict| < MAX_SIZE {
        ShortGrows(dict, s + [rest[0]]);
        EncodeReach(grown, [rest[0]], rest[1..]);
      }
      SpansMore(e, tail, |dict|, |s|, |rest|);
    }
  }

  lemma SixteenIsSmall(data: Str)
    requires data != [] && Pixels(data) && |EncodeImage(data).dict| == 16
    ensures |data| <= 66
  {
    ImageStart(data);
    EncodeReach(INITIAL, [data[0]], data[1..]);
    assert Reach(5) == 0;
    ReachStep(6);
    ReachStep(7);
    ReachStep(8);
    ReachStep(9);
    ReachStep(10);
    ReachStep(11);
    ReachStep(12);
    ReachStep(13);
    ReachStep(14);
    ReachStep(15);
    ReachStep(16);
    hide Reach;
  }

  /** A reader of the whole raster gets exactly the pixels back, unless the writer's table ends with
      sixteen entries: then the end code is one bit too short and no padding follows it. That takes an
      image of at most 66 pixels. */
  lemma RasterDecodes(data: Str)
    requires data != [] && Pixels(data)
    ensures var read := Decode(INITIAL, [], RasterBits(data) + Zeros(PadTo8(|RasterBits(data)|)));
      && (if |EncodeImage(data).dict| == 16 then read == None else read == Some(data))
      && (|data| > 66 ==> read == Some(data))
  {
    PadFacts(|RasterBits(data)|);
    DecodeRaster(data, PadTo8(|RasterBits(data)|));
    RasterLength(data);
    hide Decode, RasterBits, EncodeImage, PadTo8, Pow2;
    if |EncodeImage(data).dict| == 16 {
      SixteenIsSmall(data);
    }
  }

  lemma AtLeast(x: nat, y: nat, a: nat, b: nat)
    requires x >= a && y >= b
    ensures x * y >= a * b
  {
    assert x * y - a * b == (x - a) * y + a * (y - b);
  }

  /** Every symbol has at least 21 by 21 modules, each of at least one pixel, so its image is read back. */
  lemma SymbolImageDecodes(data: Str, modules: nat, cellSize: nat, margin: nat)
    requires Pixels(data) && modules >= 21 && cellSize >= 1
    requires var side := modules * cellSize + 2 * margin; |data| == side * side
    ensures Decode(INITIAL, [], RasterBits(data) + Zeros(PadTo8(|RasterBits(data)|))) == Some(data)
  {
    var side := modules * cellSize + 2 * margin;
    AtLeast(modules, cellSize, 21, 1);
    AtLeast(side, side, 21, 21);
    RasterDecodes(data);
  }

  // ---------- images that are not read back ----------

  function Zero(n: nat): (s: Str)
    ensures |s| == n
  {
    seq(n, _ => 0)
  }

  /** The table after j additions on an image of zeros. */
  function ZeroTable(j: nat): (dict: seq<Str>)
    ensures |dict| == 6 + j
  {
    if j == 0 then INITIAL else ZeroTable(j - 1) + [Zero(j + 1)]
  }

  lemma {:induction false} ZeroTableHolds(j: nat, m: nat)
    requires m >= 1
    ensures Zero(m) in ZeroTable(j) <==> m <= j + 1
  {
    if j == 0 {
      if m == 1 {
        assert Zero(1) == INITIAL[0];
      } else {
        assert forall i :: 0 <= i < 6 ==> |INITIAL[i]| == 1;
      }
    } else {
      ZeroTableHolds(j - 1, m);
      assert ZeroTable(j) == ZeroTable(j - 1) + [Zero(j + 1)];
      assert m != j + 1 ==> |Zero(m)| != |Zero(j + 1)|;
    }
  }

  lemma {:induction false} ZeroTableGood(j: nat)
    requires 6 + j <= MAX_SIZE
    ensures Good(ZeroTable(j))
  {
    if j == 0 {
    } else {
      ZeroTableGood(j - 1);
      ZeroTableHolds(j - 1, j + 1);
      GrowGood(ZeroTable(j - 1), Zero(j + 1));
    }
  }

  /** The additions that n further pixels make, from a table with j of them. */
  function Additions(j: nat, n: nat): nat
    decreases n
  {
    if n <= j + 1 then j else Additions(j + 1, n - (j + 1))
  }

  lemma ZeroPixels(r: nat)
    ensures Pixels(Zero(r))
  {
  }

  /** The final table for m matched and r unread zeros, from a table with j additions. */
  function ZeroEncoded(j: nat, m: nat, r: nat): seq<Str>
    requires 1 <= m <= j + 1 && j + r < 4000
  {
    ZeroTableGood(j);
    ZeroTableHolds(j, m);
    ZeroPixels(r);
    Encode(ZeroTable(j), BitWidth(|ZeroTable(j)| - 1), Zero(m), Zero(r)).dict
  }

  lemma ZeroSplits(m: nat, r: nat)
    requires r > 0
    ensures Zero(r)[1..] == Zero(r - 1) && [Zero(r)[0]] == Zero(1) && Zero(m) + [Zero(r)[0]] == Zero(m + 1)
  {
  }

  lemma ZeroTableGrows(j: nat)
    requires 6 + j < MAX_SIZE
    ensures Grow(ZeroTable(j), Zero(j + 2)) == ZeroTable(j + 1)
  {
  }

  lemma ZeroStep(j: nat, m: nat, r: nat)
    requires 1 <= m <= j + 1 && j + r < 4000 && r > 0
    ensures ZeroEncoded(j, m, r) == if m <= j then ZeroEncoded(j, m + 1, r - 1) else ZeroEncoded(j + 1, 1, r - 1)
  {
    hide Good, Encode, BitWidth, ZeroTable, NextWidth, Grow, Pixels, Zero;
    var dict := ZeroTable(j);
    ZeroTableGood(j);
    ZeroTableHolds(j, m);
    ZeroTableHolds(j, m + 1);
    ZeroPixels(r);
    ZeroSplits(m, r);
    EncodeStep(dict, BitWidth(|dict| - 1), Zero(m), Zero(r));
    if m > j {
      ZeroTableGrows(j);
      NextWidthFits(dict, Zero(m + 1));
    }
  }

  lemma ZeroEnd(j: nat, m: nat)
    requires 1 <= m <= j + 1 && j < 4000
    ensures ZeroEncoded(j, m, 0) == ZeroTable(j)
  {
    assert Zero(0) == [];
    hide Good, ZeroTable, BitWidth;
  }

  lemma AdditionsStep(j: nat, n: nat)
    ensures Additions(j, n) == if n <= j + 1 then j else Additions(j + 1, n - (j + 1))
  {
  }

  lemma {:induction false} ZeroRun(j: nat, m: nat, r: nat)
    requires 1 <= m <= j + 1 && j + r < 4000
    ensures ZeroEncoded(j, m, r) == ZeroTable(Additions(j, m + r))
    decreases r
  {
    hide *;
    AdditionsStep(j, m + r);
    if r == 0 {
      ZeroEnd(j, m);
    } else {
      ZeroStep(j, m, r);
      if m <= j {
        ZeroRun(j, m + 1, r - 1);
      } else {
        ZeroRun(j + 1, 1, r - 1);
      }
    }
  }

  lemma ZeroImage(n: nat)
    requires 1 <= n < 4000
    ensures Pixels(Zero(n)) && EncodeImage(Zero(n)).dict == ZeroEncoded(0, 1, n - 1)
  {
    ZeroPixels(n);
    FirstWidth();
    assert Zero(n)[1..] == Zero(n - 1) && [Zero(n)[0]] == Zero(1);
    assert ZeroTable(0) == INITIAL;
    hide Encode, Good, BitWidth;
  }

  lemma TenAdditions(n: nat)
    requires 56 <= n <= 66
    ensures Additions(0, n) == 10
  {
    AdditionsStep(0, n);
    AdditionsStep(1, n - 1);
    AdditionsStep(2, n - 3);
    AdditionsStep(3, n - 6);
    AdditionsStep(4, n - 10);
    AdditionsStep(5, n - 15);
    AdditionsStep(6, n - 21);
    AdditionsStep(7, n - 28);
    AdditionsStep(8, n - 36);
    AdditionsStep(9, n - 45);
    AdditionsStep(10, n - 55);
  }

  /** An image of 56 to 66 equal pixels fills the table with exactly sixteen entries and is not read back:
      the bound of 66 pixels is the best one. */
  lemma ZeroImageFails(n: nat)
    requires 56 <= n <= 66
    ensures Pixels(Zero(n)) && |EncodeImage(Zero(n)).dict| == 16
    ensures Decode(INITIAL, [], RasterBits(Zero(n)) + Zeros(PadTo8(|RasterBits(Zero(n))|))) == None
  {
    ZeroPixels(n);
    ZeroRun(0, 1, n - 1);
    TenAdditions(n);
    ZeroImage(n);
    hide Encode, EncodeImage, Decode, RasterBits, BitWidth, PadTo8, Good, ZeroEncoded;
    RasterDecodes(Zero(n));
  }
}
