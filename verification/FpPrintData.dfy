/** The stored form of a print (libfprint/data.c): a packed header, then every sample behind its length. */
module FpPrintData {
  import opened Bytes
  import opened Lists

  type Word16 = x: nat | x < 0x1_0000
  type Word32 = x: nat | x < 0x1_0000_0000

  /** `prints` is the list of samples from its head. */
  datatype Print = Print(driver: Word16, devtype: Word32, kind: byte, prints: seq<seq<byte>>)

  const HEADER := 10
  const ITEM_HEADER := 4

  function Header(p: Print): (h: seq<byte>)
    ensures |h| == HEADER
  {
    [0x46, 0x50, 0x31] + LittleEndian(p.driver, 2) + LittleEndian(p.devtype, 4) + [p.kind]
  }

  /** A sample behind the low 32 bits of its length. */
  function Item(s: seq<byte>): seq<byte> {
    LittleEndian(|s|, 4) + s
  }

  function Encoded(p: Print): seq<byte> {
    Header(p) + Join(Item, p.prints)
  }

  /** Whether another whole item follows. */
  predicate HasItem(data: seq<byte>) {
    |data| >= ITEM_HEADER && FromLe32(data[..4]) <= |data| - ITEM_HEADER
  }

  /** The whole items in front of `data`, in order. */
  function Items(data: seq<byte>): seq<seq<byte>> {
    if !HasItem(data) then []
    else
      var n := FromLe32(data[..4]);
      [data[4..4 + n]] + Items(data[4 + n..])
  }

  /** What a buffer of at least a header loads as; none without samples. The prefix is not looked at. */
  function Loaded(buf: seq<byte>): Option<Print>
    requires |buf| >= HEADER
  {
    FromLittleEndian2(buf[3..5]);
    var prints := Reversed(Items(buf[HEADER..]));
    if prints == [] then None else Some(Print(FromLittleEndian(buf[3..5]), FromLe32(buf[5..9]), buf[9], prints))
  }

  lemma FromLittleEndian2(s: seq<byte>)
    requires |s| == 2
    ensures FromLittleEndian(s) < 0x1_0000
  {
    FromLittleEndianBound(s);
    assert Power256(1) == 0x100 && Power256(2) == 0x1_0000;
  }

  /** The bytes of a header and of an item, numbers with the lowest byte first. */
  lemma HeaderIs(p: Print, s: seq<byte>)
    ensures Header(p)[..3] == ['F' as int, 'P' as int, '1' as int]
    ensures Header(p)[3..5] == [p.driver % 0x100, p.driver / 0x100]
    ensures Header(p)[5..9] == [p.devtype % 0x100, p.devtype / 0x100 % 0x100, p.devtype / 0x1_0000 % 0x100, p.devtype / 0x100_0000]
    ensures Header(p)[9] == p.kind
    ensures |s| < 0x1_0000_0000 ==>
      Item(s) == [|s| % 0x100, |s| / 0x100 % 0x100, |s| / 0x1_0000 % 0x100, |s| / 0x100_0000] + s
  {
    LittleEndianNext(p.driver, 2);
    LittleEndianNext(p.driver / 0x100, 1);
    Le32Is(p.devtype);
    if |s| < 0x1_0000_0000 {
      Le32Is(|s|);
    }
  }

  /** What a buffer loads as: numbers at their places, and samples that are each their own item. */
  lemma LoadedIs(buf: seq<byte>)
    requires |buf| >= HEADER && Loaded(buf).Some?
    ensures var p := Loaded(buf).value;
      && p.driver == buf[3] as nat + 0x100 * buf[4] as nat
      && p.devtype == buf[5] as nat + 0x100 * buf[6] as nat + 0x1_0000 * buf[7] as nat + 0x100_0000 * buf[8] as nat
      && p.kind == buf[9]
  {
    FromLe32Is(buf[5..9]);
    var s := buf[3..5];
    assert s[1..][1..] == [];
    assert FromLittleEndian(s[1..]) == s[1] as nat;
  }

  // ---- Saving

  /** `memcpy` into a buffer. */
  method Store(buf: array<byte>, at: nat, bytes: seq<byte>)
    requires at + |bytes| <= buf.Length
    modifies buf
    ensures buf[..at] == old(buf[..at]) && buf[at..at + |bytes|] == bytes
  {
    for i := 0 to |bytes|
      invariant buf[..at] == old(buf[..at]) && buf[at..at + i] == bytes[..i]
    {
      buf[at + i] := bytes[i];
    }
  }

  lemma JoinNone(l: seq<seq<byte>>)
    ensures Join(Item, l[..0]) == [] && l[..|l|] == l
  {
  }

  lemma JoinNext(l: seq<seq<byte>>, i: nat)
    requires i < |l|
    ensures Join(Item, l[..i + 1]) == Join(Item, l[..i]) + Item(l[i])
    ensures |Join(Item, l[..i + 1])| == |Join(Item, l[..i])| + ITEM_HEADER + |l[i]| <= |Join(Item, l)|
  {
    assert l[..i + 1] == l[..i] + [l[i]];
    JoinSnoc(Item, l[..i], l[i]);
    JoinSplit(Item, l, i);
  }

  /** Store one item; what stands before it stays. */
  method StoreItem(buf: array<byte>, at: nat, item: seq<byte>) returns (end: nat)
    requires at + ITEM_HEADER + |item| <= buf.Length
    modifies buf
    ensures end == at + ITEM_HEADER + |item| && buf[..end] == old(buf[..at]) + Item(item)
  {
    Store(buf, at, LittleEndian(|item|, 4));
    end := at + ITEM_HEADER;
    assert buf[..end] == buf[..at] + buf[at..end];
    Store(buf, end, item);
    assert buf[..end + |item|] == buf[..end] + buf[end..end + |item|];
    end := end + |item|;
  }

  /** `fp_print_data_get_data`. */
  method GetData(p: Print) returns (buf: array<byte>)
    ensures fresh(buf) && buf[..] == Encoded(p)
  {
    hide Join, Item, Header;
    JoinNone(p.prints);
    var buflen := 0;
    for i := 0 to |p.prints|
      invariant buflen == |Join(Item, p.prints[..i])|
    {
      JoinNext(p.prints, i);
      buflen := buflen + ITEM_HEADER;
      buflen := buflen + |p.prints[i]|;
    }
    buf := new byte[buflen + HEADER];
    Store(buf, 0, Header(p));
    var at := HEADER;
    for i := 0 to |p.prints|
      invariant at == HEADER + |Join(Item, p.prints[..i])| <= buf.Length
      invariant buf[..at] == Header(p) + Join(Item, p.prints[..i])
    {
      JoinNext(p.prints, i);
      at := StoreItem(buf, at, p.prints[i]);
    }
  }

  // ---- Loading

  /** `fp_print_data_from_data`. */
  method FromData(buf: seq<byte>) returns (data: Option<Print>)
    requires |buf| >= HEADER
    ensures data == Loaded(buf)
  {
    hide Items, Reversed;
    var left, raw, prints := |buf| - HEADER, HEADER, [];
    assert Reversed(Items(buf[HEADER..])) + prints == Reversed(Items(buf[HEADER..]));
    while left != 0
      invariant HEADER <= raw <= |buf| && left == |buf| - raw
      invariant Reversed(Items(buf[raw..])) + prints == Reversed(Items(buf[HEADER..]))
    {
      NextItem(buf, raw);
      if left < ITEM_HEADER {
        break;
      }
      left := left - ITEM_HEADER;
      var n := FromLe32(buf[raw..raw + 4]);
      if left < n {
        break;
      }
      left := left - n;
      prints := [buf[raw + 4..raw + 4 + n]] + prints;
      raw := raw + 4 + n;
    }
    NextItem(buf, raw);
    assert Reversed(Items(buf[raw..])) + prints == prints;
    FromLittleEndian2(buf[3..5]);
    data := if prints == [] then None else Some(Print(FromLittleEndian(buf[3..5]), FromLe32(buf[5..9]), buf[9], prints));
  }

  /** The items that follow a position of the buffer. */
  lemma NextItem(buf: seq<byte>, raw: nat)
    requires raw <= |buf|
    ensures !HasItem(buf[raw..]) ==> Reversed(Items(buf[raw..])) == []
    ensures |buf| - raw < ITEM_HEADER ==> !HasItem(buf[raw..])
    ensures |buf| - raw >= ITEM_HEADER ==>
      var n := FromLe32(buf[raw..raw + 4]);
      && (HasItem(buf[raw..]) <==> n <= |buf| - raw - ITEM_HEADER)
      && (HasItem(buf[raw..]) ==>
        Reversed(Items(buf[raw..])) == Reversed(Items(buf[raw + 4 + n..])) + [buf[raw + 4..raw + 4 + n]])
  {
    var data := buf[raw..];
    if |buf| - raw >= ITEM_HEADER {
      assert data[..4] == buf[raw..raw + 4];
      var n := FromLe32(data[..4]);
      if HasItem(data) {
        assert data[4..4 + n] == buf[raw + 4..raw + 4 + n] && data[4 + n..] == buf[raw + 4 + n..];
        assert Items(data) == [data[4..4 + n]] + Items(data[4 + n..]);
        assert Items(data)[1..] == Items(data[4 + n..]);
      }
    }
  }

  // ---- Round trips

  predicate Fits(s: seq<byte>) {
    |s| < WORD_LIMIT
  }

  /** Every buffer is its whole items followed by something that is none; items are shorter than 2^32. */
  lemma {:induction false} ItemsAreMaximal(data: seq<byte>) returns (rest: seq<byte>)
    ensures data == Join(Item, Items(data)) + rest && !HasItem(rest)
    ensures forall s :: s in Items(data) ==> Fits(s)
    decreases |data|
  {
    if HasItem(data) {
      var n := FromLe32(data[..4]);
      rest := ItemsAreMaximal(data[4 + n..]);
      ItemSplits(data);
      assert Items(data)[1..] == Items(data[4 + n..]);
      assert data == Item(data[4..4 + n]) + (Join(Item, Items(data[4 + n..])) + rest);
    } else {
      rest := data;
    }
  }

  lemma ItemSplits(data: seq<byte>)
    requires HasItem(data)
    ensures var n := FromLe32(data[..4]); data == Item(data[4..4 + n]) + data[4 + n..]
  {
    var n := FromLe32(data[..4]);
    assert |data[4..4 + n]| == n && Le32(n) == data[..4];
  }

  lemma ItemParses(s: seq<byte>, rest: seq<byte>)
    requires Fits(s)
    ensures Items(Item(s) + rest) == [s] + Items(rest)
  {
    var data := Item(s) + rest;
    assert data[..4] == Le32(|s|);
    FromLe32OfLe32(|s|);
    assert data[4..4 + |s|] == s && data[4 + |s|..] == rest;
  }

  lemma {:induction false} ItemsOfJoin(l: seq<seq<byte>>)
    requires forall s :: s in l ==> Fits(s)
    ensures Items(Join(Item, l)) == l
  {
    if l != [] {
      ItemsOfJoin(l[1..]);
      ItemParses(l[0], Join(Item, l[1..]));
    }
  }

  lemma HeaderReads(p: Print, rest: seq<byte>)
    ensures var buf := Header(p) + rest;
      && FromLittleEndian(buf[3..5]) == p.driver && FromLe32(buf[5..9]) == p.devtype && buf[9] == p.kind
      && buf[HEADER..] == rest
  {
    var buf := Header(p) + rest;
    assert buf[3..5] == LittleEndian(p.driver, 2) && buf[5..9] == Le32(p.devtype);
    assert Power256(1) == 0x100 && Power256(2) == 0x1_0000;
    FromLittleEndianOfLittleEndian(p.driver, 2);
    FromLe32OfLe32(p.devtype);
  }

  /** A saved print loads with the same header and its samples reversed, exactly when it has samples, none of 2^32 bytes. */
  lemma LoadedOfEncodedIff(p: Print)
    ensures Loaded(Encoded(p)) == Some(p.(prints := Reversed(p.prints)))
      <==> p.prints != [] && forall s :: s in p.prints ==> Fits(s)
  {
    hide Join, Header, FromLe32;
    var data := Join(Item, p.prints);
    HeaderReads(p, data);
    if forall s :: s in p.prints ==> Fits(s) {
      ItemsOfJoin(p.prints);
    } else {
      var rest := ItemsAreMaximal(data);
      ReversedMembers(p.prints);
      ReversedMembers(Items(data));
    }
  }

  /** Saving and loading twice gives the print back. */
  lemma LoadedTwice(p: Print)
    requires p.prints != [] && forall s :: s in p.prints ==> Fits(s)
    ensures Loaded(Encoded(p)).Some? && Loaded(Encoded(Loaded(Encoded(p)).value)) == Some(p)
  {
    hide Loaded, Encoded;
    LoadedOfEncodedIff(p);
    ReversedTwice(p.prints);
    ReversedMembers(p.prints);
    LoadedOfEncodedIff(p.(prints := Reversed(p.prints)));
  }
}
