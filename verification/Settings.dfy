/**
 Setting items and the message that carries them (libdtubase/dtustructs.cpp), with a three-byte object address.
 */
module Settings {
  import opened Bytes
  import opened Sequences

  const HEAD_LENGTH: nat := 5
  const SIZE_OF_IOA: nat := 3

  /** A buffer of the 32-bit target: offsets into it, with one more item, stay below 2^32. */
  type body = s: seq<byte> | |s| < 0x8000_0000 witness []

  /** A settingItem; the length is an unsigned char kept beside the value. */
  datatype Item = Item(addr: uint16, tag: byte, length: byte, value: body)

  /** The constructor from address, tag and value. */
  function NewItem(addr: uint16, tag: byte, value: body): Item { Item(addr, tag, |value| % 0x100, value) }

  predicate Fits(item: Item) { |item.value| == item.length }

  predicate AllFit(items: seq<Item>) { forall k :: 0 <= k < |items| ==> Fits(items[k]) }

  function Blank(item: Item): (s: seq<byte>)
    ensures |s| == HEAD_LENGTH + item.length
  {
    Le16(item.addr) + [0, item.tag, item.length] + seq(item.length, _ => 0)
  }

  /** make_buff: as long as the length field says, with the value written behind the head. */
  function MakeBuff(item: Item): Access<seq<byte>> {
    if item.length == 0 then Access.Done(Blank(item)) else Set(Blank(item), HEAD_LENGTH, item.value)
  }

  /** parse_buff on at least a head; a value that does not fit the rest is left empty. */
  function ParseItem(s: seq<byte>): Item
    requires |s| >= HEAD_LENGTH
  {
    Item(Of16(s[..2]), s[3], s[4], if s[4] != 0 && HEAD_LENGTH + s[4] <= |s| then s[HEAD_LENGTH..HEAD_LENGTH + s[4]]
        else [])
  }

  /** The items of a body; Endless stands for a loop that no longer moves. */
  datatype Parsed = Items(items: seq<Item>) | Endless

  function ParseItems(s: seq<byte>): Parsed
    decreases |s|
  {
    if s == [] then Items([])
    else if |s| < HEAD_LENGTH then Endless
    else
      var size := HEAD_LENGTH + s[4];
      var rest := if size >= |s| then Items([]) else ParseItems(s[size..]);
      if rest.Items? then Items([ParseItem(s)] + rest.items) else Endless
  }

  // ---------------------------------------------------------------- the tag byte as eight flags

  /** The n lowest bits of a number, the lowest first. */
  function Bits(b: nat, n: nat): (s: seq<bool>)
    ensures |s| == n
  {
    if n == 0 then [] else [b % 2 == 1] + Bits(b / 2, n - 1)
  }

  function OfBits(s: seq<bool>): nat
    decreases |s|
  {
    if s == [] then 0 else (if s[0] then 1 else 0) + 2 * OfBits(s[1..])
  }

  lemma {:induction false} BitsRoundTrip(b: nat, n: nat)
    requires b < Pow2(n)
    ensures OfBits(Bits(b, n)) == b
  {
    if n > 0 {
      BitsRoundTrip(b / 2, n - 1);
    }
  }

  lemma {:induction false} OfBitsRoundTrip(s: seq<bool>)
    ensures OfBits(s) < Pow2(|s|) && Bits(OfBits(s), |s|) == s
    decreases |s|
  {
    if s != [] {
      OfBitsRoundTrip(s[1..]);
      assert OfBits(s) / 2 == OfBits(s[1..]);
    }
  }

  /** Changing bit k of a number adds or takes away 2^k. */
  lemma {:induction false} ChangeBit(b: nat, n: nat, k: nat, flag: bool)
    requires b < Pow2(n) && k < n
    ensures var bit := Bits(b, n)[k];
            (bit ==> Pow2(k) <= b)
            && OfBits(Bits(b, n)[k := flag]) == (if flag == bit then b else if flag then b + Pow2(k) else b - Pow2(k))
  {
    if k == 0 {
      BitsRoundTrip(b / 2, n - 1);
      assert Bits(b, n)[0 := flag][1..] == Bits(b / 2, n - 1);
    } else {
      ChangeBit(b / 2, n - 1, k - 1, flag);
      assert Bits(b, n)[k := flag][1..] == Bits(b / 2, n - 1)[k - 1 := flag];
    }
  }

  /** set_bit: bits 1 to 8, the lowest first; any other index leaves the byte alone. */
  method SetBit(data: byte, index: int, flag: bool) returns (r: byte)
    ensures 1 <= index <= 8 ==> Bits(r, 8) == Bits(data, 8)[index - 1 := flag]
    ensures !(1 <= index <= 8) ==> r == data
  {
    if index > 8 || index < 1 {
      return data;
    }
    var v := if index < 2 then index else 2 * Pow2(index - 2);
    ChangeBit(data, 8, index - 1, flag);
    OfBitsRoundTrip(Bits(data, 8)[index - 1 := flag]);
    var isSet := Bits(data, 8)[index - 1];
    r := if flag == isSet then data else if flag then data + v else data - v;
  }

  /** array_2_bitset for one byte. */
  method ArrayToBitset(buf: byte) returns (bits: seq<bool>)
    ensures bits == Bits(buf, 8)
  {
    bits := [];
    var left: nat := buf;
    for j := 0 to 8
      invariant |bits| == j && bits + Bits(left, 8 - j) == Bits(buf, 8)
    {
      assert bits + ([left % 2 == 1] + Bits(left / 2, 8 - j - 1)) == bits + [left % 2 == 1] + Bits(left / 2, 8 - j - 1);
      bits := bits + [left % 2 == 1];
      left := left / 2;
    }
    assert bits + [] == bits;
  }

  /** bitset_2_array for eight flags: every bit of the uninitialised byte is written. */
  method BitsetToArray(bits: seq<bool>, uninitialised: byte) returns (ch: byte)
    requires |bits| == 8
    ensures ch == OfBits(bits)
  {
    ch := uninitialised;
    for j := 0 to 8
      invariant Bits(ch, 8)[..j] == bits[..j]
    {
      ghost var before := Bits(ch, 8);
      ch := SetBit(ch, j + 1, bits[j]);
      assert Bits(ch, 8)[..j + 1] == before[..j] + [bits[j]];
      assert bits[..j + 1] == bits[..j] + [bits[j]];
    }
    assert Bits(ch, 8)[..8] == Bits(ch, 8) && bits[..8] == bits;
    BitsRoundTrip(ch, 8);
  }

  // ---------------------------------------------------------------- the classes

  class SettingItem {
    var addr: uint16
    var tag: byte
    var length: byte
    var value: body

    constructor (addr: uint16, tag: byte, value: body)
      ensures AsItem() == Item(addr, tag, |value| % 0x100, value)
    {
      this.addr, this.tag, this.length, this.value := addr, tag, |value| % 0x100, value;
    }

    function AsItem(): Item
      reads this
    {
      Item(addr, tag, length, value)
    }

    method MakeBuffStep() returns (r: Access<seq<byte>>)
      ensures r == MakeBuff(AsItem())
    {
      var result := new Buffer(0);
      result.contents := seq(HEAD_LENGTH + length, _ => 0);
      HeadWritten(AsItem());
      var offset := 0;
      var done := result.Write(offset, Le16(addr));
      offset := offset + 3;
      done := result.Write(offset, [tag]);
      offset := offset + 1;
      done := result.Write(offset, [length]);
      offset := offset + 1;
      if length != 0 {
        done := result.Write(offset, value);
        if done.Throws? {
          return Throws;
        }
        if done.Overrun? {
          return Overrun;
        }
      }
      r := Access.Done(result.contents);
    }

    /** parse_buff; the return value is how far it moved. */
    method ParseBuff(buff: seq<byte>, length: uint32) returns (size: uint32)
      requires |buff| == length
      modifies this
      ensures length < HEAD_LENGTH ==> size == 0 && AsItem() == old(AsItem())
      ensures length >= HEAD_LENGTH ==>
                && size == HEAD_LENGTH + buff[4]
                && AsItem() == ParseItem(buff).(value := if ParseItem(buff).value == [] then old(value)
                    else ParseItem(buff).value)
                && (old(value) == [] ==> AsItem() == ParseItem(buff))
    {
      if length < HEAD_LENGTH {
        return 0;
      }
      var offset := 0;
      addr := Of16(buff[offset..offset + 2]);
      offset := offset + SIZE_OF_IOA;
      tag := buff[offset];
      offset := offset + 1;
      this.length := buff[offset];
      offset := offset + 1;
      if this.length != 0 && this.length + HEAD_LENGTH <= length {
        value := buff[HEAD_LENGTH..HEAD_LENGTH + this.length];
      }
      offset := offset + this.length;
      return offset;
    }
  }

  /** The three writes of make_buff fill the head. */
  lemma HeadWritten(item: Item)
    ensures var r1 := Set(seq(HEAD_LENGTH + item.length, _ => 0), 0, Le16(item.addr));
            && r1.Done? && Set(r1.value, 3, [item.tag]).Done?
            && Set(Set(r1.value, 3, [item.tag]).value, 4, [item.length]) == Access.Done(Blank(item))
  {
    var zeros := seq(item.length, _ => 0);
    var blank: seq<byte> := seq(HEAD_LENGTH + item.length, _ => 0);
    var first := Set(blank, 0, Le16(item.addr)).value;
    assert first == Le16(item.addr) + [0, 0, 0] + zeros;
    var second := Set(first, 3, [item.tag]).value;
    assert second == Le16(item.addr) + [0, item.tag, 0] + zeros;
    var third := Set(second, 4, [item.length]).value;
    assert third == Le16(item.addr) + [0, item.tag, item.length] + zeros;
  }

  /** A new item, parsed from what is left; read are the items before it. */
  method ParseOne(begin: body, offset: nat, length: uint32, ghost read: seq<Item>) returns (size: uint32, parsed: Item)
    requires offset < |begin| && length == |begin| - offset
    ensures size == 0 ==> Behind(read, Rest(begin, offset)) == Endless
    ensures size > 0 ==> Behind(read, Rest(begin, offset)) == Behind(read + [parsed], Rest(begin, offset + size))
  {
    var item := new SettingItem(0, 0, []);
    size := item.ParseBuff(begin[offset..], length);
    parsed := item.AsItem();
    hide ParseItem, Rest, Behind;
    if size == 0 {
      RestStuck(read, begin, offset);
    } else {
      RestStep(read, begin, offset);
    }
  }

  class SettingInfo {
    var group: uint16
    var tag: seq<bool>
    var settings: seq<Item>

    constructor ()
      ensures group == 0 && tag == Bits(0, 8) && settings == []
    {
      group, tag, settings := 0, Bits(0, 8), [];
    }

    /** parse; the result is false where the loop of the original no longer moves. */
    method Parse(src: body) returns (ends: bool)
      modifies this
      ensures |src| < 3 ==> ends && group == old(group) && tag == old(tag) && settings == old(settings)
      ensures |src| >= 3 ==> group == Of16(src[..2]) && tag == Bits(src[2], 8) && ends == ParseItems(src[3..]).Items?
      ensures |src| >= 3 && ends ==> settings == old(settings) + ParseItems(src[3..]).items
    {
      hide ParseItems, Bits;
      if |src| < 3 {
        return true;
      }
      var offset: uint32 := 0;
      group := Of16(src[offset..offset + 2]);
      offset := offset + 2;
      var tag := ArrayToBitset(src[offset]);
      this.tag := tag;
      offset := offset + 1;
      ends := ParseSettings(src[offset..]);
    }

    /** The body of the loop: the next item is parsed and appended; size 0 if it cannot be. */
    method ParseNext(begin: body, offset: nat, length: uint32) returns (size: uint32)
      requires offset < |begin| && length == |begin| - offset
      modifies `settings
      ensures size == 0 ==> settings == old(settings) && Behind(settings, Rest(begin, offset)) == Endless
      ensures size > 0 ==> Behind(settings, Rest(begin, offset + size)) == Behind(old(settings), Rest(begin, offset))
    {
      var item;
      size, item := ParseOne(begin, offset, length, settings);
      if size > 0 {
        settings := settings + [item];
      }
    }

    /** The loop of parse, over what follows the group and the tag. */
    method ParseSettings(begin: body) returns (ends: bool)
      modifies `settings
      ensures Behind(old(settings), ParseItems(begin)) == if ends then Items(settings) else Endless
    {
      var offset, length := 0, |begin|;
      ghost var before := settings;
      assert begin[0..] == begin && Rest(begin, 0) == ParseItems(begin);
      hide *;
      while offset < |begin|
        invariant offset < |begin| ==> length == |begin| - offset
        invariant Behind(settings, Rest(begin, offset)) == Behind(before, ParseItems(begin))
        decreases |begin| - offset
      {
        var size := ParseNext(begin, offset, length);
        if size == 0 {
          return false;
        }
        offset := offset + size;
        length := length - size;
      }
      RestIsNothing(begin, offset);
      BehindNothing(settings, Items([]));
      ends := true;
    }
  }

  /** What has been read before, followed by what is still to come. */
  function Behind(read: seq<Item>, p: Parsed): Parsed { if p.Items? then Items(read + p.items) else Endless }

  lemma BehindNothing(read: seq<Item>, p: Parsed)
    ensures Behind(read, p).Items? <==> p.Items?
    ensures p.Items? ==> Behind(read, p).items == read + p.items
    ensures Behind(read, Items([])) == Items(read)
  {
    assert read + [] == read;
  }

  lemma BehindStep(read: seq<Item>, s: seq<byte>)
    requires |s| >= HEAD_LENGTH
    ensures var size := HEAD_LENGTH + s[4];
            var rest := if size < |s| then ParseItems(s[size..]) else Items([]);
            Behind(read, ParseItems(s)) == Behind(read + [ParseItem(s)], rest)
  {
    var size := HEAD_LENGTH + s[4];
    var rest := if size < |s| then ParseItems(s[size..]) else Items([]);
    assert rest.Items? ==> read + ([ParseItem(s)] + rest.items) == read + [ParseItem(s)] + rest.items;
  }

  /** What parse will still read from an offset on. */
  function Rest(begin: seq<byte>, offset: nat): Parsed {
    if offset < |begin| then ParseItems(begin[offset..]) else Items([])
  }

  lemma RestStep(read: seq<Item>, begin: seq<byte>, offset: nat)
    requires offset + HEAD_LENGTH <= |begin|
    ensures var s := begin[offset..];
            Behind(read, Rest(begin, offset))
                == Behind(read + [ParseItem(s)], Rest(begin, offset + (HEAD_LENGTH + s[4])))
  {
    hide ParseItem, Behind;
    var s := begin[offset..];
    BehindStep(read, s);
    assert HEAD_LENGTH + s[4] < |s| ==> s[HEAD_LENGTH + s[4]..] == begin[offset + (HEAD_LENGTH + s[4])..];
  }

  lemma RestStuck(read: seq<Item>, begin: seq<byte>, offset: nat)
    requires offset < |begin| < offset + HEAD_LENGTH
    ensures Behind(read, Rest(begin, offset)) == Endless
  {
  }

  lemma RestIsNothing(begin: seq<byte>, offset: nat)
    requires offset >= |begin|
    ensures Rest(begin, offset) == Items([])
  {
  }

  // ---------------------------------------------------------------- making, then parsing

  function ItemBytes(item: Item): (s: seq<byte>)
    requires Fits(item)
    ensures |s| == HEAD_LENGTH + item.length
  {
    Le16(item.addr) + [0, item.tag, item.length] + item.value
  }

  /** What make_buff makes of an item whose value is as long as its length field says. */
  lemma MakeBuffFits(item: Item)
    requires Fits(item)
    ensures MakeBuff(item) == Access.Done(ItemBytes(item))
  {
    assert item.length == 0 ==> item.value == [] && Blank(item) == ItemBytes(item);
    var head := Le16(item.addr) + [0, item.tag, item.length];
    assert Blank(item)[..HEAD_LENGTH] == head && Blank(item)[HEAD_LENGTH + item.length..] == [];
    assert head + item.value + [] == head + item.value;
  }

  /** An item made from a value of up to 255 bytes has all of it; a longer value does not survive. */
  lemma MakeBuffOfNewItem(addr: uint16, tag: byte, value: body)
    ensures Fits(NewItem(addr, tag, value)) <==> |value| < 0x100
    ensures |value| >= 0x100 && |value| % 0x100 != 0 ==> MakeBuff(NewItem(addr, tag, value)) == Throws
    ensures |value| % 0x100 == 0 ==> MakeBuff(NewItem(addr, tag, value)) == Access.Done(Le16(addr) + [0, tag, 0])
  {
    var item := NewItem(addr, tag, value);
    assert item.length == 0 ==> Blank(item) == Le16(addr) + [0, tag, 0];
  }

  /** The make_buff results of items, one behind another. */
  function MakeAll(items: seq<Item>): seq<byte>
    requires AllFit(items)
    decreases |items|
  {
    if items == [] then [] else ItemBytes(items[0]) + MakeAll(items[1..])
  }

  lemma ParseAfterItem(item: Item, rest: seq<byte>)
    requires Fits(item)
    ensures ParseItems(ItemBytes(item) + rest) == Behind([item], ParseItems(rest))
  {
    var s := ItemBytes(item) + rest;
    assert ParseItem(s) == item && s[HEAD_LENGTH + s[4]..] == rest by {
      assert s[..2] == Le16(item.addr) && s[2..5] == [0, item.tag, item.length];
      assert s[4] == item.length && s[HEAD_LENGTH..HEAD_LENGTH + item.length] == item.value;
      Le16RoundTrip(item.addr, [0, 0]);
    }
    hide ItemBytes, ParseItem;
    BehindStep([], s);
    assert [] + [item] == [item];
    assert ParseItems(s).Items? ==> [] + ParseItems(s).items == ParseItems(s).items;
  }

  /** Items put one behind another are read back one by one, and then comes what follows them. */
  lemma {:induction false} ParseAfterItems(items: seq<Item>, rest: seq<byte>)
    requires AllFit(items)
    ensures ParseItems(MakeAll(items) + rest) == Behind(items, ParseItems(rest))
    decreases |items|
  {
    hide ItemBytes, ParseItems;
    if items == [] {
      assert MakeAll(items) + rest == rest;
      assert ParseItems(rest).Items? ==> [] + ParseItems(rest).items == ParseItems(rest).items;
    } else {
      var later := MakeAll(items[1..]) + rest;
      assert MakeAll(items) + rest == ItemBytes(items[0]) + later;
      ParseAfterItem(items[0], later);
      ParseAfterItems(items[1..], rest);
      assert ParseItems(rest).Items? ==>
          [items[0]] + (items[1..] + ParseItems(rest).items) == items + ParseItems(rest).items;
    }
  }

  /** The message of a group, a tag and what make_buff makes of the items. */
  function Message(group: uint16, tag: byte, items: seq<Item>): (s: seq<byte>)
    requires AllFit(items)
    ensures |s| >= 3
  {
    Le16(group) + [tag] + MakeAll(items)
  }

  /** Parsing the message gives back the group, the items and every flag of the tag. */
  lemma MessageRoundTrip(group: uint16, tag: byte, items: seq<Item>)
    requires AllFit(items)
    ensures forall k :: 0 <= k < |items| ==> MakeBuff(items[k]) == Access.Done(ItemBytes(items[k]))
    ensures var s := Message(group, tag, items);
            && Of16(s[..2]) == group && OfBits(Bits(s[2], 8)) == tag && s[2] == tag
            && ParseItems(s[3..]) == Items(items)
  {
    forall k | 0 <= k < |items| ensures MakeBuff(items[k]) == Access.Done(ItemBytes(items[k])) {
      MakeBuffFits(items[k]);
    }
    hide MakeBuff, ItemBytes;
    var s := Message(group, tag, items);
    assert s[..2] == Le16(group) && s[3..] == MakeAll(items) + [];
    Le16RoundTrip(group, [0, 0]);
    BitsRoundTrip(tag, 8);
    ParseAfterItems(items, []);
    assert items + [] == items;
  }

  /** Items followed by one to four bytes: the loop of parse never leaves them. */
  lemma StuckOnPartialHead(items: seq<Item>, rest: seq<byte>)
    requires AllFit(items) && 0 < |rest| < HEAD_LENGTH
    ensures ParseItems(MakeAll(items) + rest) == Endless
  {
    ParseAfterItems(items, rest);
  }

  /** Items followed by a head that promises more than there is: the last item comes out without its value. */
  lemma TruncatedItemIsEmpty(items: seq<Item>, rest: seq<byte>)
    requires AllFit(items)
    requires |rest| >= HEAD_LENGTH && |rest| < HEAD_LENGTH + rest[4]
    ensures ParseItems(MakeAll(items) + rest) == Items(items + [Item(Of16(rest[..2]), rest[3], rest[4], [])])
  {
    ParseAfterItems(items, rest);
  }

  /** Every body is of one of these kinds, so parse ends exactly if no partial head is left over. */
  lemma {:induction false} EveryBody(s: seq<byte>) returns (items: seq<Item>, rest: seq<byte>)
    ensures AllFit(items) && |MakeAll(items)| <= |s| && rest == s[|MakeAll(items)|..]
    ensures ParseItems(s) == ParseItems(MakeAll(items) + rest)
    ensures ParseItems(s).Endless? <==> 0 < |rest| < HEAD_LENGTH
    ensures rest == [] || |rest| < HEAD_LENGTH || |rest| < HEAD_LENGTH + rest[4]
    decreases |s|
  {
    if |s| < HEAD_LENGTH || |s| < HEAD_LENGTH + s[4] {
      assert MakeAll([]) + s == s && s[0..] == s;
      return [], s;
    }
    hide ParseItems, ParseItem, AllFit, MakeAll;
    var (size, first) := (HEAD_LENGTH + s[4], ParseItem(s));
    var later;
    later, rest := EveryBody(s[size..]);
    items := [first] + later;
    EveryBodyStep(s, later, rest);
    assert s[size..][|MakeAll(later)|..] == s[|MakeAll(items)|..];
  }

  lemma EveryBodyStep(s: seq<byte>, items: seq<Item>, rest: seq<byte>)
    requires |s| >= HEAD_LENGTH && |s| >= HEAD_LENGTH + s[4] && AllFit(items)
    requires ParseItems(s[HEAD_LENGTH + s[4]..]) == ParseItems(MakeAll(items) + rest)
    ensures var all := [ParseItem(s)] + items;
            && AllFit(all)
            && |MakeAll(all)| == HEAD_LENGTH + s[4] + |MakeAll(items)|
            && ParseItems(s) == ParseItems(MakeAll(all) + rest)
            && (ParseItems(s).Endless? <==> ParseItems(s[HEAD_LENGTH + s[4]..]).Endless?)
  {
    var later := ParseItems(s[HEAD_LENGTH + s[4]..]);
    hide *;
    ParsedFits(s);
    MakeAllStep(ParseItem(s), items, rest);
    ParseAfterItem(ParseItem(s), MakeAll(items) + rest);
    ParseFirst(s);
    BehindNothing([ParseItem(s)], later);
  }

  lemma ParsedFits(s: seq<byte>)
    requires |s| >= HEAD_LENGTH && |s| >= HEAD_LENGTH + s[4]
    ensures Fits(ParseItem(s)) && ParseItem(s).length == s[4]
  {
  }

  lemma MakeAllStep(item: Item, items: seq<Item>, rest: seq<byte>)
    requires Fits(item) && AllFit(items)
    ensures AllFit([item] + items) && |MakeAll([item] + items)| == HEAD_LENGTH + item.length + |MakeAll(items)|
    ensures MakeAll([item] + items) + rest == ItemBytes(item) + (MakeAll(items) + rest)
  {
    hide ItemBytes;
    var all := [item] + items;
    assert all[1..] == items;
    assert ItemBytes(item) + MakeAll(items) + rest == ItemBytes(item) + (MakeAll(items) + rest);
  }

  lemma ParseFirst(s: seq<byte>)
    requires |s| >= HEAD_LENGTH && |s| >= HEAD_LENGTH + s[4]
    ensures ParseItems(s) == Behind([ParseItem(s)], ParseItems(s[HEAD_LENGTH + s[4]..]))
  {
    hide ParseItem;
    BehindStep([], s);
    assert [] + [ParseItem(s)] == [ParseItem(s)];
    BehindNothing([], ParseItems(s));
    assert ParseItems(s).Items? ==> [] + ParseItems(s).items == ParseItems(s).items;
  }
}
