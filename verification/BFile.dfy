/**
 The block-buffered binary streams of bfile.c.  A reader refines a byte string with a cursor;
 a writer conserves every byte put into it.  `fread` and `fwrite` may transfer fewer bytes than
 asked for, but at least one.
 */
module BFile {
  import opened Bytes

  const BLOCK: nat := 4096

  function Min(a: nat, b: nat): nat { if a < b then a else b }

  /** The byte at offset `i` of a file; zero at and past the end, as bf_get_uint8 answers there. */
  function ByteAt(file: seq<Byte>, i: nat): Byte {
    if i < |file| then file[i] else 0
  }

  /** The `n` bytes from offset `i`, padded with zeros past the end of the file. */
  function Window(file: seq<Byte>, i: nat, n: nat): (w: seq<Byte>)
    ensures |w| == n
    ensures forall j :: 0 <= j < n ==> w[j] == ByteAt(file, i + j)
    ensures i + n <= |file| ==> w == file[i..i + n]
  {
    seq<Byte>(n, j requires 0 <= j => ByteAt(file, i + j))
  }

  /** A byte as the most significant one of a signed or an unsigned number. */
  function Top(signed: bool, b: int): int {
    if signed && b >= 128 then b - 256 else b
  }

  /** The bytes of an accessor, shifted and joined. */
  function Joined(signed: bool, order: Order, w: seq<Byte>): int
    requires |w| in {1, 2, 4}
  {
    if |w| == 1 then Top(signed, w[0])
    else if |w| == 2 then
      if order.BigEndian? then Word2(Top(signed, w[0]), w[1]) else Word2(Top(signed, w[1]), w[0])
    else
      if order.BigEndian? then Word4(Top(signed, w[0]), w[1], w[2], w[3])
      else Word4(Top(signed, w[3]), w[2], w[1], w[0])
  }

  class Reader {
    const file: seq<Byte>     // what the file holds
    const buffer: array<Byte>
    var pos: nat              // logical position
    var ipos: nat             // internal position: end of the bytes in the buffer
    var cursor: nat           // position of the underlying stdio stream

    /** Offset of the block the buffer holds. */
    function Start(): nat
      reads this
    {
      if ipos == 0 then 0 else (ipos - 1) / BLOCK * BLOCK
    }

    ghost predicate Loaded()
      reads this, buffer
    {
      && buffer.Length == BLOCK
      && cursor == ipos <= |file|
      && (ipos == 0 || ipos == Min(Start() + BLOCK, |file|))
      && forall i :: Start() <= i < ipos ==> buffer[i - Start()] == file[i]
    }

    ghost predicate Valid()
      reads this, buffer
    {
      Loaded() && Start() <= pos <= ipos
    }

    constructor (contents: seq<Byte>)
      ensures Valid() && fresh(buffer) && file == contents && pos == 0
    {
      file := contents;
      buffer := new Byte[BLOCK](_ => 0);
      pos, ipos, cursor := 0, 0, 0;
    }

    /** `fread` of at most `n` bytes to offset `at` of the buffer; it may read fewer, but not none. */
    method FRead(at: nat, n: nat) returns (b: nat)
      requires buffer.Length == BLOCK && 0 < n && at + n <= BLOCK && cursor < |file|
      modifies this`cursor, buffer
      ensures 0 < b <= n && cursor == old(cursor) + b <= |file|
      ensures forall k :: 0 <= k < at ==> buffer[k] == old(buffer[k])
      ensures forall k :: at <= k < at + b ==> buffer[k] == file[old(cursor) + (k - at)]
    {
      var most := Min(n, |file| - cursor);
      assert 0 < 1 <= most;
      b :| 0 < b <= most;
      forall i | 0 <= i < b {
        buffer[at + i] := file[cursor + i];
      }
      cursor := cursor + b;
    }

    /** Loads the next block, unless the whole file has been read. */
    method ReadBuffer()
      requires buffer.Length == BLOCK && cursor == ipos <= |file|
      requires ipos == |file| || ipos % BLOCK == 0
      modifies this`ipos, this`cursor, buffer
      ensures cursor == ipos == if old(ipos) == |file| then |file| else Min(old(ipos) + BLOCK, |file|)
      ensures old(ipos) == |file| ==> buffer[..] == old(buffer[..])
      ensures forall i :: old(ipos) <= i < ipos ==> buffer[i - old(ipos)] == file[i]
    {
      if ipos == |file| {
        return;
      }
      var bytes := 0;
      while bytes < BLOCK && ipos < |file|
        invariant cursor == ipos == old(ipos) + bytes <= |file|
        invariant bytes <= BLOCK
        invariant forall i :: old(ipos) <= i < ipos ==> buffer[i - old(ipos)] == file[i]
        decreases BLOCK - bytes
      {
        var b := FRead(bytes, BLOCK - bytes);
        bytes := bytes + b;
        ipos := ipos + b;
      }
    }

    /** Loads the block that follows a fully consumed one. */
    method Refill()
      requires Valid() && pos == ipos
      modifies this`ipos, this`cursor, buffer
      ensures Valid()
      ensures pos < |file| ==> pos < ipos && Start() == pos && pos % BLOCK == 0
      ensures pos == |file| ==> ipos == old(ipos)
    {
      ReadBuffer();
    }

    lemma BlockOffset(m: nat)
      requires Valid() && pos < ipos && pos + m <= |file|
      ensures pos % BLOCK == pos - Start()
      ensures pos + Min(BLOCK - pos % BLOCK, m) <= ipos
    {
    }

    /** Copies `n` bytes at the cursor out of the buffer and moves the cursor over them. */
    method CopyOut(into: array<Byte>, at: nat, n: nat)
      requires Valid() && into != buffer && at + n <= into.Length && pos < ipos && pos + n <= ipos
      modifies this`pos, into
      ensures Valid() && pos == old(pos) + n
      ensures forall k :: 0 <= k < at || at + n <= k < into.Length ==> into[k] == old(into[k])
      ensures forall k :: at <= k < at + n ==> into[k] == file[old(pos) + (k - at)]
    {
      BlockOffset(0);
      var bufoff := pos % BLOCK;
      forall i | 0 <= i < n {
        into[at + i] := buffer[bufoff + i];
      }
      pos := pos + n;
    }

    /** Copies up to `len` bytes from the cursor on, as many as the file still has. */
    method Read(into: array<Byte>, at: nat, len: nat) returns (hasread: nat)
      requires Valid() && into != buffer && at + len <= into.Length
      modifies this, buffer, into
      ensures Valid()
      ensures hasread == Min(len, |file| - old(pos))
      ensures pos == old(pos) + hasread
      ensures into[..] == old(into[..at]) + file[old(pos)..pos] + old(into[at + hasread..])
    {
      var toread := Min(len, |file| - pos);
      hide Loaded;
      hasread := 0;
      while hasread < toread
        invariant Valid()
        invariant hasread <= toread && pos == old(pos) + hasread
        invariant forall k :: 0 <= k < at || at + hasread <= k < into.Length ==> into[k] == old(into[k])
        invariant forall k :: at <= k < at + hasread ==> into[k] == file[old(pos) + (k - at)]
        decreases toread - hasread, ipos <= pos
      {
        var cpylen := ReadSome(into, at + hasread, toread - hasread);
        hasread := hasread + cpylen;
      }
    }

    /** Copies what is in the buffer, or loads the next block. */
    method ReadSome(into: array<Byte>, at: nat, len: nat) returns (n: nat)
      requires Valid() && into != buffer && at + len <= into.Length && len > 0 && pos + len <= |file|
      modifies this, buffer, into
      ensures Valid() && n <= len && pos == old(pos) + n
      ensures forall k :: 0 <= k < at || at + n <= k < into.Length ==> into[k] == old(into[k])
      ensures forall k :: at <= k < at + n ==> into[k] == file[old(pos) + (k - at)]
      ensures n > 0 || old(ipos) <= old(pos) == pos < ipos
    {
      hide Loaded;
      n := 0;
      if pos < ipos {
        BlockOffset(len);
        n := Min(BLOCK - pos % BLOCK, len);
        CopyOut(into, at, n);
      } else {
        Refill();
      }
    }

    static lemma BlockOf(p: nat)
      ensures p / BLOCK * BLOCK <= p < p / BLOCK * BLOCK + BLOCK
      ensures p / BLOCK * BLOCK % BLOCK == 0
    {
    }

    static lemma StartOf(b: nat, e: nat)
      requires b * BLOCK < e <= b * BLOCK + BLOCK
      ensures (e - 1) / BLOCK * BLOCK == b * BLOCK
    {
    }

    /** Seeks to block `b` and loads it. */
    method LoadBlock(b: nat)
      requires buffer.Length == BLOCK && b * BLOCK < |file|
      modifies this`ipos, this`cursor, buffer
      ensures Loaded() && Start() == b * BLOCK && ipos == Min(b * BLOCK + BLOCK, |file|)
    {
      BlockOf(b * BLOCK);
      ipos := b * BLOCK;
      cursor := ipos;  // fseek
      ReadBuffer();
      StartOf(b, ipos);
    }

    /** Moves the cursor back, at most to the start of the file. */
    method Rewind(n: nat) returns (moved: nat)
      requires Valid()
      modifies this, buffer
      ensures Valid()
      ensures moved == Min(n, old(pos)) && pos == old(pos) - moved
    {
      StartBelow();
      var prevbuf := pos / BLOCK;
      if n > pos {
        moved := pos;
        pos := 0;
      } else {
        moved := n;
        pos := pos - n;
      }
      var newbuf := pos / BLOCK;
      BlockOf(pos);
      if newbuf < prevbuf {
        LoadBlock(newbuf);
      }
    }

    lemma StartBelow()
      requires Valid()
      ensures Start() <= pos / BLOCK * BLOCK && Start() % BLOCK == 0
    {
      var k := if ipos == 0 then 0 else (ipos - 1) / BLOCK;
      assert Start() == k * BLOCK <= pos;
    }

    predicate AtEof()
      reads this
    {
      pos == |file|
    }

    method GetUint8() returns (v: Byte)
      requires Valid()
      modifies this, buffer
      ensures Valid()
      ensures v == ByteAt(file, old(pos)) && pos == Min(old(pos) + 1, |file|)
    {
      if AtEof() {
        return 0;
      }
      if ipos - pos < 1 {
        Refill();
      }
      v := buffer[pos % BLOCK];
      pos := pos + 1;
    }

    method GetInt8() returns (v: int)
      requires Valid()
      modifies this, buffer
      ensures Valid()
      ensures v == Top(true, ByteAt(file, old(pos)))
      ensures pos == Min(old(pos) + 1, |file|)
    {
      var b: int := GetUint8();
      v := if b >= 128 then b - 256 else b;
    }

    lemma InFile()
      requires Valid()
      ensures pos <= |file|
    {
    }

    /** bf_get_int16_be, bf_get_uint16_be, bf_get_int16_le and bf_get_uint16_le. */
    method GetWord16(signed: bool, order: Order) returns (v: int)
      requires Valid()
      modifies this, buffer
      ensures Valid()
      ensures v == Decode(Format(signed, W16, order), Window(file, old(pos), 2))
      ensures pos == Min(old(pos) + 2, |file|)
    {
      DecodeWindow(Format(signed, W16, order), Window(file, pos, 2));
      hide Loaded;
      var b0, b1: int;
      if signed && order.BigEndian? { b0 := GetInt8(); } else { b0 := GetUint8(); }
      if signed && order.LittleEndian? { b1 := GetInt8(); } else { b1 := GetUint8(); }
      v := if order.BigEndian? then Word2(b0, b1) else Word2(b1, b0);
    }

    /** bf_get_int32_be, bf_get_uint32_be, bf_get_int32_le and bf_get_uint32_le. */
    method GetWord32(signed: bool, order: Order) returns (v: int)
      requires Valid()
      modifies this, buffer
      ensures Valid()
      ensures v == Joined(signed, order, Window(file, old(pos), 4))
      ensures pos == Min(old(pos) + 4, |file|)
    {
      hide Valid;
      InFile();
      var b0, b1, b2, b3: int;
      if signed && order.BigEndian? { b0 := GetInt8(); } else { b0 := GetUint8(); }
      b1 := GetUint8();
      b2 := GetUint8();
      if signed && order.LittleEndian? { b3 := GetInt8(); } else { b3 := GetUint8(); }
      v := if order.BigEndian? then Word4(b0, b1, b2, b3) else Word4(b3, b2, b1, b0);
    }

    method GetWord(f: Format) returns (v: int)
      requires Valid()
      modifies this, buffer
      ensures Valid()
      ensures v == Decode(f, Window(file, old(pos), f.width.Size()))
      ensures pos == Min(old(pos) + f.width.Size(), |file|)
    {
      match f.width
      case W8 =>
        DecodeWindow(f, Window(file, pos, 1));
        if f.signed { v := GetInt8(); } else { v := GetUint8(); }
      case W16 =>
        v := GetWord16(f.signed, f.order);
      case W32 =>
        DecodeWindow(f, Window(file, pos, 4));
        v := GetWord32(f.signed, f.order);
    }

    /**
     Looks at the next two bytes without moving the cursor.  It only looks inside the current
     block: when the two bytes straddle a block boundary it answers zero.  The guard is C's
     `pos > ipos - 2` on unsigned numbers, which wraps for `ipos < 2`.
     */
    method PeekUint16Be() returns (v: int)
      requires Valid()
      modifies this`ipos, this`cursor, buffer
      ensures Valid()
      ensures pos + 2 <= |file| ==> v == Peeked(file, pos)
      ensures pos + 2 > |file| >= 2 ==> v == 0
    {
      hide Decode, Window, Start;
      var bufoff := pos % BLOCK;
      if bufoff == 0 && pos == ipos {
        Refill();
      }
      if ipos >= 2 && pos > ipos - 2 {
        LastOfBlock();
        return 0;
      }
      TwoInBlock();
      bufoff := pos % BLOCK;
      var high := buffer[bufoff];
      bufoff := (bufoff + 1) % BLOCK;
      v := Word2(high, buffer[bufoff]);
    }

    /** Where a peek stops although two bytes are left is the last byte of a block. */
    lemma LastOfBlock()
      requires Valid() && ipos >= 2 && pos > ipos - 2 && (pos % BLOCK == 0 && pos < |file| ==> pos < ipos)
      ensures pos + 2 <= |file| ==> pos % BLOCK == BLOCK - 1
    {
    }

    /** Otherwise both bytes are in the buffer, if there are two. */
    lemma TwoInBlock()
      requires Valid() && !(ipos >= 2 && pos > ipos - 2) && (pos % BLOCK == 0 && pos < |file| ==> pos < ipos)
      ensures |file| >= 2 ==> pos + 2 <= |file|
      ensures pos + 2 <= |file| ==>
        && pos % BLOCK < BLOCK - 1 && (pos % BLOCK + 1) % BLOCK == pos % BLOCK + 1
        && Peeked(file, pos) == Word2(buffer[pos % BLOCK], buffer[pos % BLOCK + 1])
    {
      if pos + 2 <= |file| {
        DecodeWindow(U16Be, Window(file, pos, 2));
      }
    }
  }

  class Writer {
    var disk: seq<Byte>      // the bytes `fwrite` has taken
    const buffer: array<Byte>
    var pos: nat
    var ipos: nat            // internal position: the bytes before it are on disk

    ghost predicate Valid()
      reads this, buffer
    {
      && buffer.Length == BLOCK
      && ipos % BLOCK == 0
      && ipos == |disk|
      && ipos <= pos <= ipos + BLOCK
    }

    /** Everything put so far: what is on disk, then what is still in the buffer. */
    ghost function Contents(): seq<Byte>
      requires buffer.Length == BLOCK && ipos <= pos <= ipos + BLOCK
      reads this, buffer
    {
      disk + buffer[..pos - ipos]
    }

    constructor ()
      ensures Valid() && fresh(buffer) && Contents() == []
    {
      disk := [];
      buffer := new Byte[BLOCK](_ => 0);
      pos, ipos := 0, 0;
    }

    /** `fwrite` of `n` buffered bytes from offset `at`; it may take fewer, but not none. */
    method FWrite(at: nat, n: nat) returns (res: nat)
      requires buffer.Length == BLOCK && 0 < n && at + n <= BLOCK
      modifies this`disk
      ensures 0 < res <= n && disk == old(disk) + buffer[at..at + res]
    {
      res :| 0 < res <= n;
      disk := disk + buffer[at..at + res];
    }

    method WriteBuffer()
      requires Valid()
      modifies this`disk, this`ipos
      ensures disk == old(Contents()) && ipos == pos
    {
      var towrite := pos - ipos;
      var written := 0;
      while written < towrite
        invariant written <= towrite && ipos == old(ipos)
        invariant disk == old(disk) + buffer[..written]
      {
        var bufpos := ipos % BLOCK;
        var res := FWrite(bufpos + written, towrite - written);
        assert buffer[..written + res] == buffer[..written] + buffer[written..written + res];
        written := written + res;
      }
      ipos := ipos + written;
    }

    /** bf_destroy flushes what is pending; afterwards the file holds everything put. */
    method Destroy()
      requires Valid()
      modifies this`disk, this`ipos
      ensures disk == old(Contents())
    {
      WriteBuffer();
    }

    method Write(from: array<Byte>, at: nat, len: nat)
      requires Valid() && from != buffer && at + len <= from.Length
      modifies this, buffer
      ensures Valid()
      ensures Contents() == old(Contents()) + from[at..at + len]
    {
      hide Contents;
      ghost var before := Contents();
      var haswritten := 0;
      while haswritten < len
        invariant Valid() && haswritten <= len
        invariant Contents() == before + from[at..at + haswritten]
        decreases len - haswritten, pos - ipos
      {
        var cpylen := WriteSome(from, at + haswritten, len - haswritten);
        SlicesSum(from[..], at, at + haswritten, at + haswritten + cpylen);
        AppendTwice(before, from[at..at + haswritten], from[at + haswritten..at + haswritten + cpylen]);
        haswritten := haswritten + cpylen;
      }
    }

    static lemma SlicesSum(s: seq<Byte>, i: nat, j: nat, k: nat)
      requires i <= j <= k <= |s|
      ensures s[i..k] == s[i..j] + s[j..k]
    {
    }

    /** Copies what there is room for, or makes room. */
    method WriteSome(from: array<Byte>, at: nat, len: nat) returns (n: nat)
      requires Valid() && from != buffer && at + len <= from.Length && len > 0
      modifies this, buffer
      ensures Valid() && n <= len && Contents() == old(Contents()) + from[at..at + n]
      ensures n > 0 || pos - ipos < old(pos - ipos)
    {
      if pos - ipos < BLOCK {
        n := Min(BLOCK - pos % BLOCK, len);
        CopyIn(from, at, n);
      } else {
        n := 0;
        WriteBuffer();
      }
    }

    /** Copies `n` bytes behind the pending ones. */
    method CopyIn(from: array<Byte>, at: nat, n: nat)
      requires Valid() && from != buffer && at + n <= from.Length
      requires pos - ipos < BLOCK && n <= BLOCK - pos % BLOCK
      modifies this`pos, buffer
      ensures Valid() && pos == old(pos) + n
      ensures Contents() == old(Contents()) + from[at..at + n]
    {
      var bufoff := pos % BLOCK;
      ghost var pending := buffer[..pos - ipos];
      forall i | 0 <= i < n {
        buffer[bufoff + i] := from[at + i];
      }
      pos := pos + n;
      assert buffer[..pos - ipos] == pending + from[at..at + n];
    }

    method PutUint8(v: Byte)
      requires Valid()
      modifies this, buffer
      ensures Valid()
      ensures Contents() == old(Contents()) + [v]
    {
      if pos - ipos >= BLOCK {
        WriteBuffer();
      }
      ghost var pending := buffer[..pos - ipos];
      buffer[pos % BLOCK] := v;
      pos := pos + 1;
      assert buffer[..pos - ipos] == pending + [v];
    }

    /** The bf_put_* integer functions: each byte is a shifted value masked with 0xff. */
    method PutWord(f: Format, v: int)
      requires Valid() && f.Holds(v)
      modifies this, buffer
      ensures Valid()
      ensures Contents() == old(Contents()) + Encode(f, v)
    {
      hide Encode, Valid;
      EncodeShifts(f, v);
      match f.width
      case W8 =>
        PutUint8(v % 0x100);
      case W16 =>
        if f.order.BigEndian? {
          PutUint8(v / 0x100 % 0x100);
          PutUint8(v % 0x100);
        } else {
          PutUint8(v % 0x100);
          PutUint8(v / 0x100 % 0x100);
        }
      case W32 =>
        if f.order.BigEndian? {
          PutFour(v / 0x100_0000 % 0x100, v / 0x1_0000 % 0x100, v / 0x100 % 0x100, v % 0x100);
        } else {
          PutFour(v % 0x100, v / 0x100 % 0x100, v / 0x1_0000 % 0x100, v / 0x100_0000 % 0x100);
        }
    }

    method PutFour(a: Byte, b: Byte, c: Byte, d: Byte)
      requires Valid()
      modifies this, buffer
      ensures Valid()
      ensures Contents() == old(Contents()) + [a, b, c, d]
    {
      hide Valid;
      PutUint8(a);
      PutUint8(b);
      PutUint8(c);
      PutUint8(d);
    }
  }

  /** What a peek at offset `i` answers when two bytes are left. */
  function Peeked(file: seq<Byte>, i: nat): int
    requires i + 2 <= |file|
  {
    if i % BLOCK == BLOCK - 1 then 0 else Decode(U16Be, Window(file, i, 2))
  }

  /** A peek agrees with the get that follows it, except at the last byte of a block. */
  lemma PeekAgrees(file: seq<Byte>, i: nat)
    requires i + 2 <= |file|
    ensures Peeked(file, i) == Decode(U16Be, Window(file, i, 2)) <==>
            i % BLOCK != BLOCK - 1 || (file[i] == 0 && file[i + 1] == 0)
    ensures i % 2 == 0 ==> Peeked(file, i) == Decode(U16Be, Window(file, i, 2))
  {
    DecodeWindow(U16Be, Window(file, i, 2));
  }

  /** What the byte-wise arithmetic of the accessors amounts to. */
  lemma DecodeWindow(f: Format, w: seq<Byte>)
    requires |w| == f.width.Size()
    ensures Decode(f, w) == Joined(f.signed, f.order, w)
  {
    match (f.width, f.order)
    case (W8, BigEndian) =>
      assert w == [w[0]];
      ValueOfOne(w[0]);
    case (W8, LittleEndian) =>
      assert Reverse(w) == [w[0]];
      ValueOfOne(w[0]);
    case (W16, BigEndian) =>
      assert w == [w[0], w[1]];
      ValueOfTwo(w[0], w[1]);
    case (W16, LittleEndian) =>
      assert Reverse(w) == [w[1], w[0]];
      ValueOfTwo(w[1], w[0]);
    case (W32, BigEndian) =>
      assert w == [w[0], w[1], w[2], w[3]];
      ValueOfFour(w[0], w[1], w[2], w[3]);
    case (W32, LittleEndian) =>
      assert Reverse(w) == [w[3], w[2], w[1], w[0]];
      ValueOfFour(w[3], w[2], w[1], w[0]);
  }

  lemma WrapShifts16(v: int)
    ensures v % 0x1_0000 / 0x100 % 0x100 == v / 0x100 % 0x100
    ensures v % 0x1_0000 % 0x100 == v % 0x100
  {
  }

  lemma WrapShifts32(v: int)
    ensures v % 0x1_0000_0000 / 0x100_0000 % 0x100 == v / 0x100_0000 % 0x100
    ensures v % 0x1_0000_0000 / 0x1_0000 % 0x100 == v / 0x1_0000 % 0x100
    ensures v % 0x1_0000_0000 / 0x100 % 0x100 == v / 0x100 % 0x100
    ensures v % 0x1_0000_0000 % 0x100 == v % 0x100
  {
    var u, q := v % 0x1_0000_0000, v / 0x1_0000_0000;
    assert v == 0x1_0000_0000 * q + u;
    assert v / 0x100_0000 == 0x100 * q + u / 0x100_0000;
    assert v / 0x1_0000 == 0x1_0000 * q + u / 0x1_0000;
    assert v / 0x100 == 0x100_0000 * q + u / 0x100;
    ModShift(u / 0x100_0000, q);
    ModShift(u / 0x1_0000, 0x100 * q);
    ModShift(u / 0x100, 0x1_0000 * q);
    ModShift(u, 0x100_0000 * q);
  }

  lemma ModShift(u: int, k: int)
    ensures (0x100 * k + u) % 0x100 == u % 0x100
  {
  }

  /** What the shifts and masks of the put functions amount to, for negative values too. */
  lemma EncodeShifts(f: Format, v: int)
    requires f.Holds(v)
    ensures Encode(f, v) ==
            match (f.width, f.order)
            case (W8, _) => [v % 0x100]
            case (W16, BigEndian) => [v / 0x100 % 0x100, v % 0x100]
            case (W16, LittleEndian) => [v % 0x100, v / 0x100 % 0x100]
            case (W32, BigEndian) =>
              [v / 0x100_0000 % 0x100, v / 0x1_0000 % 0x100, v / 0x100 % 0x100, v % 0x100]
            case (W32, LittleEndian) =>
              [v % 0x100, v / 0x100 % 0x100, v / 0x1_0000 % 0x100, v / 0x100_0000 % 0x100]
  {
    match f.width
    case W8 =>
      DigitsOfTwo(Wrap(W8, v));
    case W16 =>
      DigitsOfTwo(Wrap(W16, v));
      WrapShifts16(v);
    case W32 =>
      DigitsOfFour(Wrap(W32, v));
      WrapShifts32(v);
  }

  method PutAll(w: Writer, items: seq<Item>)
    requires w.Valid() && AllHold(items)
    modifies w, w.buffer
    ensures w.Valid()
    ensures w.Contents() == old(w.Contents()) + EncodeAll(items, |items|)
  {
    hide Encode;
    for i := 0 to |items|
      invariant w.Valid()
      invariant w.Contents() == old(w.Contents()) + EncodeAll(items, i)
    {
      w.PutWord(items[i].format, items[i].value);
    }
  }

  /** The `k`-th get of a run reads back the `k`-th value put. */
  method GetNext(r: Reader, ghost items: seq<Item>, ghost start: nat, ghost k: nat, f: Format) returns (v: int)
    requires r.Valid() && AllHold(items) && k < |items| && f == items[k].format
    requires start <= |r.file| && EncodeAll(items, |items|) <= r.file[start..]
    requires r.pos == start + |EncodeAll(items, k)|
    modifies r, r.buffer
    ensures r.Valid() && v == items[k].value
    ensures r.pos == start + |EncodeAll(items, k + 1)|
  {
    hide Encode;
    ghost var code := Encode(f, items[k].value);
    EncodeAllPrefix(items, k + 1, |items|);
    assert EncodeAll(items, k + 1)[|EncodeAll(items, k)|..] == code;
    assert r.file[r.pos..r.pos + |code|] == code;
    v := r.GetWord(f);
    DecodeEncode(f, items[k].value);
  }

  lemma EncodeNone(items: seq<Item>)
    ensures EncodeAll(items, 0) == []
  {
  }

  method GetAll(r: Reader, ghost items: seq<Item>, formats: seq<Format>) returns (values: seq<int>)
    requires r.Valid() && AllHold(items)
    requires |formats| == |items| && forall i :: 0 <= i < |items| ==> formats[i] == items[i].format
    requires EncodeAll(items, |items|) <= r.file[r.pos..]
    modifies r, r.buffer
    ensures r.Valid()
    ensures |values| == |items|
    ensures forall i :: 0 <= i < |items| ==> values[i] == items[i].value
  {
    hide Encode, AllHold, EncodeAll;
    values := [];
    ghost var start := r.pos;
    EncodeNone(items);
    for i := 0 to |formats|
      invariant r.Valid()
      invariant r.pos == start + |EncodeAll(items, i)|
      invariant |values| == i
      invariant forall j :: 0 <= j < i ==> values[j] == items[j].value
    {
      var v := GetNext(r, items, start, i, formats[i]);
      values := values + [v];
    }
  }

  /**
   Any run of puts followed by the matching run of gets, over any number of blocks, gives the
   values back.
   */
  method WriteThenRead(items: seq<Item>) returns (values: seq<int>)
    requires AllHold(items)
    ensures |values| == |items|
    ensures forall i :: 0 <= i < |items| ==> values[i] == items[i].value
  {
    var w := new Writer();
    PutAll(w, items);
    w.Destroy();
    var r := new Reader(w.disk);
    assert r.file[0..] == w.disk == EncodeAll(items, |items|);
    values := GetAll(r, items, seq(|items|, i requires 0 <= i < |items| => items[i].format));
  }
}
