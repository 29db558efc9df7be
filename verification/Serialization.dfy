/** The growing writer and the bounded reader of src/common/base/Serialization.cpp. */
module SerializationObject {
  import opened Common
  import opened Varint

  function Count(size: bv64): nat { size as nat }

  /** A sum of unsigned 64-bit numbers. */
  function Sum64(n: nat): nat { n % U64 }

  lemma Sum64Small(n: nat)
    requires n < U64
    ensures Sum64(n) == n
  {
  }

  /** A string or blob with its 64-bit size. */
  datatype Sized = Sized(size: bv64, bytes: Bytes)

  predicate SizeOk(d: Sized) {
    Count(d.size) == |d.bytes|
  }

  // ---------------------------------------------------------------- the stream format

  function Bytes4(x: bv32): (r: Bytes)
    ensures |r| == 4
  {
    [((x >> 24) & 0xff) as bv8, ((x >> 16) & 0xff) as bv8, ((x >> 8) & 0xff) as bv8, (x & 0xff) as bv8]
  }

  function Word4(b0: Byte, b1: Byte, b2: Byte, b3: Byte): bv32 {
    ((b0 as bv32) << 24) | ((b1 as bv32) << 16) | ((b2 as bv32) << 8) | (b3 as bv32)
  }

  lemma RoundTrip4(x: bv32)
    ensures var b := Bytes4(x); Word4(b[0], b[1], b[2], b[3]) == x
  {
  }

  /** The four bytes are the digits of the word in base 256, the most significant first. */
  lemma Digits4(x: bv32)
    ensures var b := Bytes4(x);
      x == (b[0] as bv32) * 0x1000000 + (b[1] as bv32) * 0x10000 + (b[2] as bv32) * 0x100 + (b[3] as bv32)
  {
  }

  datatype Item = Number(value: bv64) | Text(text: Sized) | Blob(blob: Sized) | Word(word: bv32)

  predicate ItemOk(item: Item) {
    (item.Text? ==> SizeOk(item.text)) && (item.Blob? ==> SizeOk(item.blob))
  }

  function SizedBytes(d: Sized): Bytes {
    Encode(d.size) + d.bytes
  }

  function ItemBytes(item: Item): Bytes {
    match item
    case Number(v) => Encode(v)
    case Text(d) => SizedBytes(d)
    case Blob(d) => SizedBytes(d)
    case Word(x) => Bytes4(x)
  }

  function StreamBytes(items: seq<Item>): Bytes {
    if items == [] then [] else StreamBytes(items[..|items| - 1]) + ItemBytes(items[|items| - 1])
  }

  // ---------------------------------------------------------------- the writer

  /** `mallocs(i)` tells whether the i-th allocation succeeds. */
  class Serialization {
    var data: array<Byte>
    var cursor: nat
    var calls: nat
    const mallocs: nat -> bool

    ghost predicate Valid()
      reads this, data
    {
      cursor <= data.Length
    }

    ghost function Contents(): Bytes
      requires Valid()
      reads this, data
    {
      data[..cursor]
    }

    constructor (mallocs: nat -> bool)
      ensures Valid() && fresh(data) && Contents() == [] && this.mallocs == mallocs
    {
      this.mallocs := mallocs;
      data := new Byte[0];
      cursor, calls := 0, 0;
    }

    /** `Data::reset` behind `Data::resize`: a new buffer that starts with the old bytes. */
    method Reallocate(size: nat) returns (ok: bool)
      requires Valid() && data.Length <= size
      modifies this
      ensures Valid() && cursor == old(cursor) && Contents() == old(Contents())
      ensures ok ==> data.Length == size && (size == 0 || fresh(data))
      ensures !ok ==> data == old(data) && !mallocs(old(calls))
      ensures data == old(data) || fresh(data)
    {
      if size == 0 {
        return true;
      }
      calls := calls + 1;
      if !mallocs(calls - 1) {
        return false;
      }
      var bigger := new Byte[size];
      forall i | 0 <= i < data.Length {
        bigger[i] := data[i];
      }
      data := bigger;
      return true;
    }

    method Resize(size: nat) returns (ok: bool)
      requires Valid()
      modifies this
      ensures Valid() && cursor == old(cursor) && Contents() == old(Contents())
      ensures size < old(data.Length) ==> ok && data == old(data)
      ensures ok && size >= old(data.Length) ==> data.Length == Max(size, 2 * old(data.Length))
      ensures ok ==> size <= data.Length
      ensures !ok ==> !mallocs(old(calls))
      ensures data == old(data) || fresh(data)
    {
      if size < data.Length {
        return true;
      }
      ok := Reallocate(if size > data.Length * 2 then size else data.Length * 2);
    }

    method Expand(more: nat) returns (ok: bool)
      requires Valid()
      modifies this
      ensures Valid() && cursor == old(cursor) && Contents() == old(Contents())
      ensures ok ==> cursor + more <= data.Length
      ensures !ok ==> !mallocs(old(calls))
      ensures data == old(data) || fresh(data)
    {
      ok := Resize(cursor + more);
    }

    /** `seek`: positions from the end are negative, positions past it stop there. */
    method Seek(position: int)
      requires Valid()
      modifies this`cursor
      ensures Valid()
      ensures cursor == Sought(data.Length, position)
    {
      if position < 0 {
        cursor := Max(0, data.Length + position + 1);
      } else {
        cursor := Min(data.Length, position);
      }
    }

    method Advance(offset: int)
      requires Valid()
      modifies this`cursor
      ensures Valid() && cursor == Sought(data.Length, old(cursor) + offset)
    {
      Seek(cursor + offset);
    }

    /** Bytes copied to the cursor, which moves past them. */
    method CopyHere(bytes: Bytes)
      requires Valid() && cursor + |bytes| <= data.Length
      modifies this`cursor, data
      ensures Valid() && Contents() == old(Contents()) + bytes
    {
      for i := 0 to |bytes|
        invariant cursor == old(cursor) && data == old(data)
        invariant forall k :: 0 <= k < cursor ==> data[k] == old(data[k])
        invariant forall k :: 0 <= k < i ==> data[cursor + k] == bytes[k]
      {
        data[cursor + i] := bytes[i];
      }
      Advance(|bytes|);
    }

    method PutVarint(value: bv64) returns (length: nat)
      requires Valid()
      modifies this, data
      ensures Valid() && (data == old(data) || fresh(data))
      ensures length == 0 ==> Contents() == old(Contents()) && !mallocs(old(calls))
      ensures length != 0 ==> length == |Encode(value)| && Contents() == old(Contents()) + Encode(value)
    {
      hide Encode;
      ghost var before := Contents();
      var ok := Expand(9);
      if !ok {
        return 0;
      }
      length := WriteVarint(data, cursor, value);
      assert data[..cursor] == before && data[..][cursor..cursor + length] == Encode(value);
      Advance(length);
      assert data[..cursor] == before + Encode(value);
    }

    /** `putSizedData` and `putSizedString`: both parts are written, or the cursor goes back;
        either way the result is true. */
    method PutSized(d: Sized) returns (result: bool)
      requires Valid() && SizeOk(d)
      modifies this, data
      ensures Valid() && (data == old(data) || fresh(data)) && result
      ensures Contents() == old(Contents()) + SizedBytes(d) || Contents() == old(Contents())
      ensures (forall i :: mallocs(i)) ==> Contents() == old(Contents()) + SizedBytes(d)
    {
      hide Encode;
      ghost var before := Contents();
      var start := cursor;
      var lengthOfSize := PutVarint(d.size);
      if lengthOfSize == 0 {
        Seek(start);
        return true;
      }
      assert data[..start] == Contents()[..start] == before;
      ghost var middle := Contents();
      var ok := Expand(|d.bytes|);
      if !ok {
        assert data[..start] == Contents()[..start];
        Seek(start);
        return true;
      }
      CopyHere(d.bytes);
      return true;
    }

    method Put4BytesUInt(value: bv32) returns (ok: bool)
      requires Valid()
      modifies this, data
      ensures Valid() && (data == old(data) || fresh(data))
      ensures ok ==> Contents() == old(Contents()) + Bytes4(value)
      ensures !ok ==> Contents() == old(Contents()) && !mallocs(old(calls))
    {
      ok := Expand(4);
      if ok {
        CopyHere(Bytes4(value));
      }
    }

    /** `finalize`: the bytes before the cursor. */
    method Finalize() returns (bytes: Bytes)
      requires Valid()
      ensures bytes == Contents()
    {
      bytes := data[..cursor];
    }

    method PutItem(item: Item)
      requires Valid() && ItemOk(item) && forall i :: mallocs(i)
      modifies this, data
      ensures Valid() && (data == old(data) || fresh(data))
      ensures Contents() == old(Contents()) + ItemBytes(item)
    {
      hide Encode, Bytes4, SizedBytes;
      match item {
        case Number(v) => var length := PutVarint(v);
        case Text(d) => var ok := PutSized(d);
        case Blob(d) => var ok := PutSized(d);
        case Word(x) => var ok := Put4BytesUInt(x);
      }
    }

    /** Any list of items, through every growth of the buffer. */
    method PutStream(items: seq<Item>)
      requires Valid() && (forall i :: 0 <= i < |items| ==> ItemOk(items[i])) && forall i :: mallocs(i)
      modifies this, data
      ensures Valid() && (data == old(data) || fresh(data))
      ensures Contents() == old(Contents()) + StreamBytes(items)
    {
      hide ItemBytes;
      for i := 0 to |items|
        invariant Valid() && (data == old(data) || fresh(data))
        invariant Contents() == old(Contents()) + StreamBytes(items[..i])
      {
        assert items[..i + 1][..i] == items[..i];
        PutItem(items[i]);
      }
      assert items[..|items|] == items;
    }
  }

  function Min(a: int, b: int): int { if a < b then a else b }

  function Max(a: int, b: int): int { if a > b then a else b }

  /** Where `seek` puts the cursor: negative positions count from behind the end, and none lies outside. */
  function Sought(total: nat, position: int): (r: nat)
    ensures r <= total && (0 <= position <= total ==> r == position)
  {
    if position < 0 then Max(0, total + position + 1) else Min(total, position)
  }

  /** A `size_t` taken as the signed `offset_t`. */
  function Signed64(n: nat): int {
    if n < S64 then n else n - U64
  }

  // ---------------------------------------------------------------- the reader

  datatype View = View(length: nat, start: nat, size: bv64)

  /** A sized item is refused when its size cannot be read or when the sum of offsets, taken in
      64 bits, lies past the end. */
  predicate Refused(data: Bytes, offset: nat) {
    var (n, size) := Decode(data, offset);
    n == 0 || Sum64(offset + n + Count(size)) > |data|
  }

  /** `getSizedData` and `getSizedString`: the length taken, and where the bytes are. */
  function SizedView(data: Bytes, offset: nat): View {
    var (n, size) := Decode(data, offset);
    if Refused(data, offset) then View(0, 0, 0) else View(Sum64(n + Count(size)), offset + n, size)
  }

  /** A view that is handed out lies inside the data exactly when the sum does not reach 2^64. */
  lemma ViewInsideExactly(data: Bytes, offset: nat)
    requires offset <= |data| < U64 && !Refused(data, offset)
    ensures var (n, size) := Decode(data, offset);
            var view := SizedView(data, offset);
            && (view.start + Count(view.size) <= |data| <==> offset + n + Count(size) < U64)
            && (offset + n + Count(size) < U64 ==> view.length == n + Count(size))
  {
    hide Count, Decode, Sum64;
    var (n, size) := Decode(data, offset);
    WholeSum(offset + n, Count(size), |data|);
    if offset + n + Count(size) < U64 { Sum64Small(n + Count(size)); }
  }

  const NINE_ONES: Bytes := [0xff, 0xff, 0xff, 0xff, 0xff, 0xff, 0xff, 0xff, 0xff]

  lemma NineOnes()
    ensures Decode(NINE_ONES, 0) == (9, 0xffff_ffff_ffff_ffff)
  {
    var d := NINE_ONES;
    assert forall i :: 0 <= i < 9 ==> d[i] == 0xff;
    assert More(0xff);
    assert Join7(0, 0xff) == 0x7f && Join7(0x7f, 0xff) == 0x3fff && Join7(0x3fff, 0xff) == 0x1f_ffff;
    assert Join7(0x1f_ffff, 0xff) == 0xfff_ffff && Join7(0xfff_ffff, 0xff) == 0x7_ffff_ffff;
    assert Join7(0x7_ffff_ffff, 0xff) == 0x3ff_ffff_ffff && Join7(0x3ff_ffff_ffff, 0xff) == 0x1_ffff_ffff_ffff;
    assert Join7(0x1_ffff_ffff_ffff, 0xff) == 0xff_ffff_ffff_ffff;
    assert Last(0xff_ffff_ffff_ffff, 0xff) == 0xffff_ffff_ffff_ffff;
    assert Decode(d, 0) == Fold(d, 0, 0, 0);
    hide *;
    FoldStep(d, 0, 0, 0);
    FoldStep(d, 0, 1, 0x7f);
    FoldStep(d, 0, 2, 0x3fff);
    FoldStep(d, 0, 3, 0x1f_ffff);
    FoldStep(d, 0, 4, 0xfff_ffff);
    FoldStep(d, 0, 5, 0x7_ffff_ffff);
    FoldStep(d, 0, 6, 0x3ff_ffff_ffff);
    FoldStep(d, 0, 7, 0x1_ffff_ffff_ffff);
    FoldLast(d, 0, 0xff_ffff_ffff_ffff);
  }

  /** The sum does wrap: nine bytes that announce 2^64 - 1 more are accepted, the view they give starts
      at the end of the data, and the length taken for it stops inside the number. */
  lemma WrappedView()
    ensures !Refused(NINE_ONES, 0)
    ensures var view := SizedView(NINE_ONES, 0);
      view.start == |NINE_ONES| == 9 && Count(view.size) == U64 - 1 && view.length == 8
  {
    NineOnes();
    hide Decode;
    assert Count(0xffff_ffff_ffff_ffff) == U64 - 1;
    assert Sum64(9 + (U64 - 1)) == 8;
  }

  /** Where the cursor is after a sized item: at the sum of the offsets, taken in 64 bits. */
  function AfterSized(data: Bytes, offset: nat): nat {
    var (n, size) := Decode(data, offset);
    if Refused(data, offset) then offset else Sum64(offset + n + Count(size))
  }

  /** The signed length leads from the offset to that sum, also where it is negative or nothing. */
  lemma AdvancesTo(data: Bytes, offset: nat)
    requires offset <= |data| < S64
    ensures AfterSized(data, offset) == Sought(|data|, offset + Signed64(SizedView(data, offset).length))
  {
    var (n, size) := Decode(data, offset);
    if !Refused(data, offset) {
      hide Decode, Count;
      LengthAtMost(data, offset);
      SignedSum(offset, n + Count(size), |data|);
    }
  }

  lemma LengthAtMost(data: Bytes, offset: nat)
    ensures Decode(data, offset).0 <= 9 && Count(Decode(data, offset).1) < U64
  {
    FoldFits(data, offset, 0, 0);
  }

  lemma SignedSum(offset: nat, length: nat, total: nat)
    requires offset <= total < S64 && length < U64 + 9 && Sum64(offset + length) <= total
    ensures offset + Signed64(Sum64(length)) == Sum64(offset + length)
  {
  }

  /** The cursor goes back exactly when the sum with the offset reaches 2^64 and the length does not. */
  lemma GoesBackExactly(data: Bytes, offset: nat)
    requires offset <= |data| < S64 && !Refused(data, offset)
    ensures var (n, size) := Decode(data, offset);
      AfterSized(data, offset) < offset <==> n + Count(size) < U64 <= offset + n + Count(size)
  {
    LengthAtMost(data, offset);
    hide Decode, Count;
  }

  /** And it can: at offset 20 a size of 2^64 - 20 is accepted, and the cursor goes back to 9. */
  lemma GoesBack(prefix: Bytes)
    requires |prefix| == 20
    ensures var data := prefix + Encode(0xffff_ffff_ffff_ffec);
      |data| == 29 && !Refused(data, 20) && AfterSized(data, 20) == 9
  {
    var size: bv64 := 0xffff_ffff_ffff_ffec;
    var data := prefix + Encode(size);
    assert Wide(size);
    EncodeIs(size);
    assert Count(size) == U64 - 20;
    hide Encode, Decode, Count;
    assert data[20..20 + |Encode(size)|] == Encode(size);
    AtSlice(data, 20, Encode(size));
    RoundTrip(data, 20, size);
  }

  lemma WholeSum(start: nat, size: nat, total: nat)
    requires total < U64 && Sum64(start + size) <= total
    ensures start + size <= total <==> start + size < U64
  {
  }

  datatype Kind = NumberKind | TextKind | BlobKind | WordKind

  function KindOf(item: Item): Kind {
    match item
    case Number(_) => NumberKind
    case Text(_) => TextKind
    case Blob(_) => BlobKind
    case Word(_) => WordKind
  }

  function Slice(data: Bytes, start: nat, count: nat): Option<Bytes> {
    if start + count > |data| then None else Some(data[start..start + count])
  }

  function ReadSized(data: Bytes, offset: nat): Option<(Sized, nat)> {
    var view := SizedView(data, offset);
    var bytes := Slice(data, view.start, Count(view.size));
    if view.length == 0 || bytes.None? then None
    else Some((Sized(view.size, bytes.value), view.start + Count(view.size)))
  }

  /** One item read at an offset, and the offset behind it. */
  function ReadItem(data: Bytes, offset: nat, kind: Kind): Option<(Item, nat)> {
    match kind
    case NumberKind =>
      var (n, v) := Decode(data, offset);
      if n == 0 then None else Some((Number(v), offset + n))
    case TextKind =>
      var r := ReadSized(data, offset);
      if r.None? then None else Some((Text(r.value.0), r.value.1))
    case BlobKind =>
      var r := ReadSized(data, offset);
      if r.None? then None else Some((Blob(r.value.0), r.value.1))
    case WordKind =>
      if offset + 4 > |data| then None
      else Some((Word(Word4(data[offset], data[offset + 1], data[offset + 2], data[offset + 3])), offset + 4))
  }

  function ReadStream(data: Bytes, offset: nat, kinds: seq<Kind>): Option<(seq<Item>, nat)>
    decreases |kinds|
  {
    if kinds == [] then Some(([], offset))
    else
      var first := ReadItem(data, offset, kinds[0]);
      if first.None? then None
      else
        var rest := ReadStream(data, first.value.1, kinds[1..]);
        if rest.None? then None else Some(([first.value.0] + rest.value.0, rest.value.1))
  }

  // ---------------------------------------------------------------- stream round trip

  lemma AtSplit(data: Bytes, offset: nat, x: Bytes, y: Bytes)
    requires At(data, offset, x + y)
    ensures At(data, offset, x) && At(data, offset + |x|, y)
  {
    assert x == (x + y)[..|x|] && y == (x + y)[|x|..];
  }

  lemma SizedRoundTrip(data: Bytes, offset: nat, d: Sized)
    requires SizeOk(d) && |data| < U64 && At(data, offset, SizedBytes(d))
    ensures ReadSized(data, offset) == Some((d, offset + |SizedBytes(d)|))
  {
    hide Encode, Decode, Count;
    AtSplit(data, offset, Encode(d.size), d.bytes);
    RoundTrip(data, offset, d.size);
    AcceptedView(data, offset, |Encode(d.size)|, d.size);
    assert SizedBytes(d) == Encode(d.size) + d.bytes;
    hide Refused, SizedView, SizedBytes;
  }

  lemma AcceptedView(data: Bytes, offset: nat, n: nat, size: bv64)
    requires Decode(data, offset) == (n, size) && n > 0 && |data| < U64 && offset + n + Count(size) <= |data|
    ensures !Refused(data, offset) && SizedView(data, offset) == View(n + Count(size), offset + n, size)
  {
    hide Decode, Count, Sum64;
    Sum64Small(offset + n + Count(size));
    Sum64Small(n + Count(size));
  }

  lemma ItemRoundTrip(data: Bytes, offset: nat, item: Item)
    requires ItemOk(item) && |data| < U64 && At(data, offset, ItemBytes(item))
    ensures ReadItem(data, offset, KindOf(item)) == Some((item, offset + |ItemBytes(item)|))
  {
    hide Encode, Decode, SizedBytes, ReadSized, Word4, Bytes4;
    match item
    case Number(v) => RoundTrip(data, offset, v);
    case Text(d) => SizedRoundTrip(data, offset, d);
    case Blob(d) => SizedRoundTrip(data, offset, d);
    case Word(x) =>
      RoundTrip4(x);
      var b := Bytes4(x);
      assert data[offset] == b[0] && data[offset + 1] == b[1] && data[offset + 2] == b[2] && data[offset + 3] == b[3];
  }

  function Kinds(items: seq<Item>): (r: seq<Kind>)
    ensures |r| == |items|
  {
    seq(|items|, i requires 0 <= i < |items| => KindOf(items[i]))
  }

  lemma StreamLast(items: seq<Item>)
    requires items != []
    ensures StreamBytes(items) == StreamBytes(items[..|items| - 1]) + ItemBytes(items[|items| - 1])
  {
  }

  lemma {:induction false} StreamFirst(items: seq<Item>)
    requires items != []
    ensures StreamBytes(items) == ItemBytes(items[0]) + StreamBytes(items[1..])
  {
    hide ItemBytes;
    var n := |items| - 1;
    if n == 0 {
      assert items[..0] == [] && items[1..] == [];
    } else {
      StreamFirst(items[..n]);
      var front, rest := items[..n], items[1..];
      assert front[0] == items[0] && front[1..] == rest[..n - 1] && rest[n - 1] == items[n];
      StreamLast(items);
      StreamLast(rest);
      hide StreamBytes;
    }
  }

  lemma ReadStreamStep(data: Bytes, offset: nat, kinds: seq<Kind>)
    requires kinds != []
    ensures var first := ReadItem(data, offset, kinds[0]);
            first.Some? ==>
              var rest := ReadStream(data, first.value.1, kinds[1..]);
              rest.Some? ==> ReadStream(data, offset, kinds) == Some(([first.value.0] + rest.value.0, rest.value.1))
  {
  }

  /** Wherever a stream of items stands in the data, reading items of the same kinds gives the
      same items and stops exactly at its end. */
  lemma {:induction false} StreamRoundTrip(data: Bytes, offset: nat, items: seq<Item>)
    requires (forall i :: 0 <= i < |items| ==> ItemOk(items[i])) && |data| < U64
    requires At(data, offset, StreamBytes(items))
    ensures ReadStream(data, offset, Kinds(items)) == Some((items, offset + |StreamBytes(items)|))
    decreases |items|
  {
    hide *;
    if items == [] {
      StreamNone(data, offset);
    } else {
      KindsFirst(items);
      StreamFirst(items);
      var next := offset + |ItemBytes(items[0])|;
      AtSplit(data, offset, ItemBytes(items[0]), StreamBytes(items[1..]));
      ItemRoundTrip(data, offset, items[0]);
      StreamRoundTrip(data, next, items[1..]);
      ReadStreamStep(data, offset, Kinds(items));
      assert [items[0]] + items[1..] == items;
      assert next + |StreamBytes(items[1..])| == offset + |StreamBytes(items)|;
    }
  }

  lemma StreamNone(data: Bytes, offset: nat)
    ensures StreamBytes([]) == [] && Kinds([]) == [] && ReadStream(data, offset, []) == Some(([], offset))
  {
  }

  lemma KindsFirst(items: seq<Item>)
    requires items != []
    ensures Kinds(items) != [] && Kinds(items)[0] == KindOf(items[0]) && Kinds(items)[1..] == Kinds(items[1..])
  {
  }

  class Deserialization {
    const data: Bytes
    var cursor: nat

    ghost predicate Valid()
      reads this
    {
      cursor <= |data| < S64
    }

    constructor (data: Bytes)
      requires |data| < S64
      ensures Valid() && this.data == data && cursor == 0
    {
      this.data := data;
      cursor := 0;
    }

    method Seek(position: int)
      requires Valid()
      modifies this
      ensures Valid() && cursor == Sought(|data|, position)
    {
      if position < 0 {
        cursor := Max(0, |data| + position + 1);
      } else {
        cursor := Min(|data|, position);
      }
    }

    method Advance(offset: int)
      requires Valid()
      modifies this
      ensures Valid() && cursor == Sought(|data|, old(cursor) + offset)
    {
      Seek(cursor + offset);
    }

    method Ended() returns (r: bool)
      ensures r <==> cursor == |data|
    {
      r := cursor == |data|;
    }

    method AdvanceVarint() returns (length: nat, value: bv64)
      requires Valid()
      modifies this
      ensures Valid() && (length, value) == Decode(data, old(cursor)) && cursor == old(cursor) + length
    {
      FoldLength(data, cursor);
      hide Decode;
      length, value := GetVarint(data, cursor);
      if length > 0 {
        Advance(length);
      }
    }

    method GetSized(offset: nat) returns (view: View)
      ensures view == SizedView(data, offset)
    {
      hide Decode, Count, Sum64;
      var lengthOfSize, size := GetVarint(data, offset);
      if lengthOfSize == 0 || Sum64(offset + lengthOfSize + Count(size)) > |data| {
        return View(0, 0, 0);
      }
      return View(Sum64(lengthOfSize + Count(size)), offset + lengthOfSize, size);
    }

    method AdvanceSized() returns (view: View)
      requires Valid()
      modifies this
      ensures Valid() && view == SizedView(data, old(cursor)) && cursor == AfterSized(data, old(cursor))
    {
      AdvancesTo(data, cursor);
      hide SizedView, AfterSized;
      view := GetSized(cursor);
      if view.length > 0 {
        Advance(Signed64(view.length));
      }
    }

    /** Callers ask first whether four more bytes are there. */
    method Advance4BytesUInt() returns (value: bv32)
      requires Valid() && cursor + 4 <= |data|
      modifies this
      ensures Valid() && cursor == old(cursor) + 4
      ensures value == Word4(data[old(cursor)], data[old(cursor) + 1], data[old(cursor) + 2], data[old(cursor) + 3])
    {
      value := Word4(data[cursor], data[cursor + 1], data[cursor + 2], data[cursor + 3]);
      Advance(4);
    }

    method AdvanceSizedItem() returns (item: Option<Sized>)
      requires Valid()
      modifies this
      ensures Valid()
      ensures item.None? <==> ReadSized(data, old(cursor)).None?
      ensures item.Some? ==> ReadSized(data, old(cursor)) == Some((item.value, cursor))
    {
      hide SizedView, Count, AfterSized;
      ViewEnds(data, cursor);
      var view := AdvanceSized();
      if view.length == 0 || view.start + Count(view.size) > |data| {
        return None;
      }
      return Some(Sized(view.size, data[view.start..view.start + Count(view.size)]));
    }

    method AdvanceItem(kind: Kind) returns (item: Option<Item>)
      requires Valid()
      modifies this
      ensures Valid()
      ensures item.None? <==> ReadItem(data, old(cursor), kind).None?
      ensures item.Some? ==> ReadItem(data, old(cursor), kind) == Some((item.value, cursor))
    {
      hide Decode, ReadSized, Word4;
      match kind {
        case NumberKind =>
          var length, value := AdvanceVarint();
          item := if length == 0 then None else Some(Number(value));
        case TextKind =>
          var d := AdvanceSizedItem();
          item := if d.None? then None else Some(Text(d.value));
        case BlobKind =>
          var d := AdvanceSizedItem();
          item := if d.None? then None else Some(Blob(d.value));
        case WordKind =>
          if cursor + 4 > |data| {
            return None;
          }
          var value := Advance4BytesUInt();
          item := Some(Word(value));
      }
    }

    method AdvanceStream(kinds: seq<Kind>) returns (items: Option<seq<Item>>)
      requires Valid()
      modifies this
      ensures Valid()
      ensures items.None? <==> ReadStream(data, old(cursor), kinds).None?
      ensures items.Some? ==> ReadStream(data, old(cursor), kinds) == Some((items.value, cursor))
    {
      hide ReadItem;
      var read: seq<Item> := [];
      assert kinds[0..] == kinds;
      PrependNothing(ReadStream(data, cursor, kinds));
      for i := 0 to |kinds|
        invariant Valid()
        invariant ReadStream(data, old(cursor), kinds) == Prepend(read, ReadStream(data, cursor, kinds[i..]))
      {
        assert kinds[i..][1..] == kinds[i + 1..];
        ReadStreamCases(data, cursor, kinds[i..]);
        if ReadItem(data, cursor, kinds[i]).Some? { PrependStep(data, cursor, kinds[i..], read); }
        var item := AdvanceItem(kinds[i]);
        if item.None? {
          return None;
        }
        read := read + [item.value];
      }
      assert kinds[|kinds|..] == [] && read + [] == read;
      items := Some(read);
    }
  }

  /** What was read before, put in front of the rest. */
  function Prepend(read: seq<Item>, rest: Option<(seq<Item>, nat)>): Option<(seq<Item>, nat)> {
    if rest.None? then None else Some((read + rest.value.0, rest.value.1))
  }

  lemma PrependNothing(rest: Option<(seq<Item>, nat)>)
    ensures Prepend([], rest) == rest
  {
    if rest.Some? { assert [] + rest.value.0 == rest.value.0; }
  }

  lemma ReadStreamCases(data: Bytes, offset: nat, kinds: seq<Kind>)
    requires kinds != []
    ensures ReadItem(data, offset, kinds[0]).None? ==> ReadStream(data, offset, kinds) == None
    ensures ReadItem(data, offset, kinds[0]).Some? ==>
              var first := ReadItem(data, offset, kinds[0]).value;
              ReadStream(data, offset, kinds) == Prepend([first.0], ReadStream(data, first.1, kinds[1..]))
  {
  }

  lemma PrependStep(data: Bytes, offset: nat, kinds: seq<Kind>, read: seq<Item>)
    requires kinds != [] && ReadItem(data, offset, kinds[0]).Some?
    ensures var first := ReadItem(data, offset, kinds[0]).value;
            Prepend(read, ReadStream(data, offset, kinds)) == Prepend(read + [first.0], ReadStream(data, first.1, kinds[1..]))
  {
    hide ReadItem;
    ReadStreamCases(data, offset, kinds);
    var first := ReadItem(data, offset, kinds[0]).value;
    var rest := ReadStream(data, first.1, kinds[1..]);
    if rest.Some? {
      assert read + ([first.0] + rest.value.0) == (read + [first.0]) + rest.value.0;
    }
  }

  /** Where a view that lies inside the data ends. */
  lemma ViewEnds(data: Bytes, offset: nat)
    requires offset <= |data| < U64
    ensures var view := SizedView(data, offset);
            view.length > 0 && view.start + Count(view.size) <= |data| ==> AfterSized(data, offset) == view.start + Count(view.size)
  {
    hide Decode, Count, Sum64;
    if !Refused(data, offset) {
      ViewInsideExactly(data, offset);
      var (n, size) := Decode(data, offset);
      if offset + n + Count(size) < U64 { Sum64Small(offset + n + Count(size)); }
    }
  }

  /** The whole way: written with every allocation granted, read back as the same items, nothing
      left over. */
  method SaveAndLoad(items: seq<Item>, mallocs: nat -> bool) returns (loaded: Option<seq<Item>>, ended: bool)
    requires (forall i :: 0 <= i < |items| ==> ItemOk(items[i])) && |StreamBytes(items)| < S64
    requires forall i :: mallocs(i)
    ensures loaded == Some(items) && ended
  {
    hide ItemOk, StreamBytes, Kinds, ReadStream;
    var writer := new Serialization(mallocs);
    writer.PutStream(items);
    var bytes := writer.Finalize();
    assert bytes == StreamBytes(items);
    AtSlice(bytes, 0, StreamBytes(items));
    StreamRoundTrip(bytes, 0, items);
    var reader := new Deserialization(bytes);
    loaded := reader.AdvanceStream(Kinds(items));
    ended := reader.Ended();
  }

  lemma FoldLength(data: Bytes, offset: nat)
    ensures Decode(data, offset).0 > 0 ==> offset + Decode(data, offset).0 <= |data|
  {
    FoldLengthFrom(data, offset, 0, 0);
  }

  lemma {:induction false} FoldLengthFrom(data: Bytes, offset: nat, i: nat, acc: bv64)
    requires i <= 8
    ensures Fold(data, offset, i, acc).0 > 0 ==> offset + Fold(data, offset, i, acc).0 <= |data|
    decreases 9 - i
  {
    hide Join7, Last, More;
    if i < 8 && offset + i < |data| && More(data[offset + i]) {
      FoldLengthFrom(data, offset, i + 1, Join7(acc, data[offset + i]));
    }
  }
}
