/**
 Verilator's buffered save and restore streams over a file whose reads and writes may
 do only part of what they are asked.
 */
module SaveRestore {
  import opened Bits
  import opened Serialize

  const BUFFER_SIZE: nat := 256 * 1024
  const INSERT_SIZE: nat := 16 * 1024

  /** "verilatorsave01\n" and "vltsaved". */
  const HEADER: seq<byte> := [118, 101, 114, 105, 108, 97, 116, 111, 114, 115, 97, 118, 101, 48, 49, 10]
  const TRAILER: seq<byte> := [118, 108, 116, 115, 97, 118, 101, 100]

  lemma Signatures()
    ensures |HEADER| == 16 && forall i :: 0 <= i < 16 ==> HEADER[i] == "verilatorsave01\n"[i] as int
    ensures |TRAILER| == 8 && forall i :: 0 <= i < 8 ==> TRAILER[i] == "vltsaved"[i] as int
  {
  }

  // ---------------------------------------------------------------- files

  /**
   A file being written. The plan says what the next calls do: write at most that many
   bytes, or none (0, and a negative number for an interrupted call). Calls beyond the
   plan write everything.
   */
  class Sink {
    var content: seq<byte>
    var plan: seq<int>

    constructor (plan: seq<int>)
      ensures content == []
    {
      this.plan, content := plan, [];
    }

    method Write(src: array<byte>, at: nat, n: nat) returns (got: int)
      requires n > 0 && at + n <= src.Length
      modifies this
      ensures got <= n && |plan| <= |old(plan)|
      ensures got > 0 ==> content == old(content) + src[at..at + got]
      ensures got <= 0 ==> content == old(content) && |plan| < |old(plan)|
    {
      got := n;
      if |plan| > 0 {
        if plan[0] < n { got := plan[0]; }
        plan := plan[1..];
      }
      if got > 0 { content := content + src[at..at + got]; }
    }
  }

  /** A file being read, with a plan for the next calls; 0 means the end of the file. */
  class Source {
    const data: seq<byte>
    var pos: nat
    var plan: seq<int>

    constructor (data: seq<byte>, plan: seq<int>)
      ensures this.data == data && pos == 0
    {
      this.data, this.plan, pos := data, plan, 0;
    }

    method Read(dst: array<byte>, at: nat, n: nat) returns (got: int)
      requires pos <= |data| && n > 0 && at + n <= dst.Length
      modifies this, dst
      ensures got <= n && |plan| <= |old(plan)|
      ensures got > 0 ==> pos == old(pos) + got <= |data|
      ensures got > 0 ==> forall k :: at <= k < at + got ==> dst[k] == data[old(pos) + k - at]
      ensures got <= 0 ==> pos == old(pos)
      ensures got == 0 ==> pos == |data|
      ensures got < 0 ==> |plan| < |old(plan)|
      ensures forall k :: 0 <= k < dst.Length && !(at <= k < at + got) ==> dst[k] == old(dst[k])
    {
      got := n;
      if |plan| > 0 {
        if plan[0] <= 0 {
          plan := plan[1..];
          got := -1;
          return;
        }
        if plan[0] < n { got := plan[0]; }
        plan := plan[1..];
      }
      if pos + got > |data| { got := |data| - pos; }
      forall k | at <= k < at + got {
        dst[k] := data[pos + k - at];
      }
      pos := pos + got;
    }
  }

  // ---------------------------------------------------------------- saving

  class Save {
    const buf: array<byte>
    var cp: nat
    const file: Sink

    constructor (file: Sink)
      ensures Valid() && this.file == file && fresh(buf) && Stream() == file.content
    {
      buf := new byte[BUFFER_SIZE];
      cp := 0;
      this.file := file;
      new;
      assert buf[..0] == [];
    }

    ghost predicate Valid() reads this {
      buf.Length == BUFFER_SIZE && cp <= BUFFER_SIZE
    }

    /** Everything written so far, on file or in the buffer. */
    ghost function Stream(): seq<byte>
      reads this, buf, file
      requires Valid()
    {
      file.content + buf[..cp]
    }

    /** `VerilatedSave::flush`: writes the buffer out in as many calls as it takes. */
    method Flush()
      requires Valid()
      modifies this, file
      ensures Valid() && cp == 0 && Stream() == old(Stream()) && file.content == Stream()
    {
      var wp := 0;
      ghost var all := Stream();
      while true
        invariant 0 <= wp <= cp == old(cp) && file.content + buf[wp..cp] == all
        decreases cp - wp, |file.plan|
      {
        var remaining := cp - wp;
        if remaining == 0 { break; }
        var got := file.Write(buf, wp, remaining);
        if got > 0 {
          assert buf[wp..cp] == buf[wp..wp + got] + buf[wp + got..cp];
          wp := wp + got;
        }
      }
      assert buf[wp..cp] == [] && buf[..0] == [];
      cp := 0;
    }

    method BufferCheck()
      requires Valid()
      modifies this, file
      ensures Valid() && cp + INSERT_SIZE <= BUFFER_SIZE && Stream() == old(Stream())
    {
      if cp > BUFFER_SIZE - INSERT_SIZE { Flush(); }
    }

    /** Appends bytes to the stream, block by block; the cursor stays in the buffer. */
    method Write(data: seq<byte>)
      requires Valid()
      modifies this, buf, file
      ensures Valid() && Stream() == old(Stream()) + data
    {
      var dp, size := 0, |data|;
      ghost var was := Stream();
      while size > 0
        invariant Valid() && 0 <= dp && 0 <= size && dp + size == |data|
        invariant Stream() == was + data[..dp]
        decreases size
      {
        BufferCheck();
        var blk := if size > INSERT_SIZE then INSERT_SIZE else size;
        WriteBlock(data, dp, blk);
        assert data[..dp + blk] == data[..dp] + data[dp..dp + blk];
        dp := dp + blk;
        size := size - blk;
      }
      assert data[..dp] == data;
    }

    /** The copying loop. */
    method WriteBlock(data: seq<byte>, at: nat, blk: nat)
      requires Valid() && cp + blk <= BUFFER_SIZE && at + blk <= |data|
      modifies this`cp, buf
      ensures Valid() && Stream() == old(Stream()) + data[at..at + blk]
    {
      var dp := at;
      while dp < at + blk
        invariant at <= dp <= at + blk && cp == old(cp) + dp - at
        invariant forall k :: 0 <= k < old(cp) ==> buf[k] == old(buf[k])
        invariant forall k :: old(cp) <= k < cp ==> buf[k] == data[at + k - old(cp)]
      {
        buf[cp] := data[dp];
        cp, dp := cp + 1, dp + 1;
      }
      assert buf[..cp] == old(buf[..cp]) + data[at..at + blk];
    }

    /** `operator<<` for every shape of value. */
    method Put(v: Val)
      requires Valid()
      modifies this, buf, file
      ensures Valid() && Stream() == old(Stream()) + Encode(v)
      decreases v, 1
    {
      hide ToBytes, EncodeEntries;
      match v
      case Num(w, x) =>
        Write(ToBytes(x, w));
      case Str(cs) =>
        var len := |cs| % TWO32;
        Write(ToBytes(len, 4));
        Write(cs[..len]);
      case Assoc(d, es) =>
        Put(d);
        Write(ToBytes(|es| % TWO32, 4));
        PutEntries(v);
    }

    method PutEntries(v: Val)
      requires Valid() && v.Assoc?
      modifies this, buf, file
      ensures Valid() && Stream() == old(Stream()) + EncodeEntries(v, |v.entries|)
      decreases v, 0
    {
      ghost var was := Stream();
      NoEntries(was, v);
      for i := 0 to |v.entries|
        invariant Valid() && Stream() == was + EncodeEntries(v, i)
      {
        hide Encode, EncodeEntries;
        EntryAppended(was, v, i);
        Put(v.entries[i].key);
        Put(v.entries[i].value);
      }
    }

    /** `open`: a stream starts with the signature and the global state. */
    method Open(globals: seq<byte>)
      requires Valid()
      modifies this, buf, file
      ensures Valid() && Stream() == old(Stream()) + HEADER + globals
    {
      Write(HEADER);
      Write(globals);
    }

    /** `close`: ends the stream with its trailer and puts all of it on file. */
    method Close()
      requires Valid()
      modifies this, buf, file
      ensures Valid() && file.content == old(Stream()) + TRAILER
    {
      Write(TRAILER);
      Flush();
    }
  }

  // ---------------------------------------------------------------- restoring

  class Restore {
    const buf: array<byte>
    var cp: nat
    var endp: nat
    const file: Source
    /** How many bytes of the file, continued by zeros, have been read. */
    ghost var done: nat

    constructor (file: Source)
      requires file.pos == 0
      ensures Valid() && this.file == file && fresh(buf) && done == 0
    {
      buf := new byte[BUFFER_SIZE];
      cp, endp, done := 0, 0, 0;
      this.file := file;
    }

    /** The buffer holds what follows the bytes read so far. */
    ghost predicate Valid()
      reads this, buf, file
    {
      && buf.Length == BUFFER_SIZE && cp <= endp <= BUFFER_SIZE
      && file.pos == Lesser(|file.data|, done + endp - cp)
      && forall k :: cp <= k < endp ==> buf[k] == At(file.data, done + k - cp)
    }

    /** `VerilatedRestore::fill`: moves what is left to the front and fills up from the file, at its end with zeros. */
    method Fill()
      requires Valid()
      modifies this, buf, file
      ensures Valid() && done == old(done) && cp == 0 && endp == BUFFER_SIZE
    {
      MoveDown();
      while true
        invariant Valid() && done == old(done) && cp == 0
        decreases BUFFER_SIZE - endp, |file.plan|
      {
        var remaining := BUFFER_SIZE - endp;
        if remaining == 0 { break; }
        var got := file.Read(buf, endp, remaining);
        if got > 0 {
          endp := endp + got;
        } else if got == 0 {
          FillZeros();
          break;
        }
      }
    }

    method MoveDown()
      requires Valid()
      modifies this`cp, this`endp, buf
      ensures Valid() && done == old(done) && cp == 0
    {
      var rp, sp := 0, cp;
      while sp < endp
        invariant cp == old(cp) && endp == old(endp)
        invariant 0 <= rp && cp <= sp <= endp && rp == sp - cp
        invariant forall k :: 0 <= k < rp ==> buf[k] == At(file.data, done + k)
        invariant forall k :: sp <= k < endp ==> buf[k] == At(file.data, done + k - cp)
      {
        buf[rp] := buf[sp];
        rp, sp := rp + 1, sp + 1;
      }
      endp := endp - cp;
      cp := 0;
    }

    method FillZeros()
      requires Valid() && cp == 0 && file.pos == |file.data|
      modifies this`endp, buf
      ensures Valid() && endp == BUFFER_SIZE
    {
      while endp < BUFFER_SIZE
        invariant Valid()
      {
        buf[endp] := 0;
        endp := endp + 1;
      }
    }

    method BufferCheck()
      requires Valid()
      modifies this, buf, file
      ensures Valid() && done == old(done) && cp + INSERT_SIZE <= endp
    {
      if cp + INSERT_SIZE > endp { Fill(); }
    }

    /** The next bytes of the file, continued by zeros, however the file's reads are cut. */
    method Read(size: nat) returns (out: seq<byte>)
      requires Valid()
      modifies this, buf, file
      ensures Valid() && out == Bytes(file.data, old(done), size) && done == old(done) + size
    {
      out := [];
      var left := size;
      while left > 0
        invariant Valid() && 0 <= left <= size && done == old(done) + size - left
        invariant out == Bytes(file.data, old(done), size - left)
        decreases left
      {
        BufferCheck();
        var blk := if left > INSERT_SIZE then INSERT_SIZE else left;
        var block := ReadBlock(blk);
        BytesConcat(file.data, old(done), size - left, blk);
        out := out + block;
        left := left - blk;
      }
    }

    method ReadBlock(blk: nat) returns (out: seq<byte>)
      requires Valid() && cp + blk <= endp
      modifies this`cp, this`done
      ensures Valid() && out == Bytes(file.data, old(done), blk) && done == old(done) + blk
    {
      out := [];
      for i := 0 to blk
        invariant Valid() && |out| == i && cp == old(cp) + i && done == old(done) + i
        invariant out == Bytes(file.data, old(done), i)
      {
        BytesConcat(file.data, old(done), i, 1);
        assert Bytes(file.data, old(done) + i, 1) == [buf[cp]];
        out := out + [buf[cp]];
        cp := cp + 1;
        done := done + 1;
      }
    }

    /** `readDiffers`: one block, compared byte by byte. */
    method Differs(expected: seq<byte>) returns (miss: bool)
      requires Valid() && |expected| <= INSERT_SIZE
      modifies this, buf, file
      ensures Valid() && done == old(done) + |expected|
      ensures miss <==> Bytes(file.data, old(done), |expected|) != expected
    {
      BufferCheck();
      miss := false;
      var block := ReadBlock(|expected|);
      for i := 0 to |expected|
        invariant miss <==> block[..i] != expected[..i]
      {
        assert block[..i + 1] == block[..i] + [block[i]] && expected[..i + 1] == expected[..i] + [expected[i]];
        miss := miss || block[i] != expected[i];
      }
      assert block[..|expected|] == block && expected[..|expected|] == expected;
    }

    /** `operator>>` for every shape. */
    method Get(s: Shape) returns (v: Val)
      requires Valid()
      modifies this, buf, file
      ensures Valid() && (v, done) == Decode(s, file.data, old(done))
      decreases s
    {
      hide FromBytes, Bytes, At;
      match s
      case NumShape(w) =>
        var bs := Read(w);
        v := Num(w, FromBytes(bs));
      case StrShape =>
        var bs := Read(4);
        var cs := Read(FromBytes(bs));
        v := Str(cs);
      case AssocShape(ks, vs) =>
        var d := Get(vs);
        var bs := Read(4);
        var len := FromBytes(bs);
        var es := [];
        ghost var start := done;
        for i := 0 to len
          invariant Valid() && (es, done) == DecodeEntries(s, file.data, start, i)
        {
          var index := Get(ks);
          var value := Get(vs);
          es := Serialize.Put(es, index, value);
        }
        v := Assoc(d, es);
    }

    method Open(size: nat) returns (ok: bool, globals: seq<byte>)
      requires Valid()
      modifies this, buf, file
      ensures Valid() && done == old(done) + |HEADER| + size
      ensures ok <==> Bytes(file.data, old(done), |HEADER|) == HEADER
      ensures globals == Bytes(file.data, old(done) + |HEADER|, size)
    {
      var miss := Differs(HEADER);
      ok := !miss;
      globals := Read(size);
    }

    method Close() returns (ok: bool)
      requires Valid()
      modifies this, buf, file
      ensures Valid() && done == old(done) + |TRAILER|
      ensures ok <==> Bytes(file.data, old(done), |TRAILER|) == TRAILER
    {
      var miss := Differs(TRAILER);
      ok := !miss;
    }
  }

  lemma NoEntries(was: seq<byte>, v: Val)
    requires v.Assoc?
    ensures was + EncodeEntries(v, 0) == was
  {
  }

  lemma EntryAppended(was: seq<byte>, v: Val, i: nat)
    requires v.Assoc? && i < |v.entries|
    ensures was + EncodeEntries(v, i) + Encode(v.entries[i].key) + Encode(v.entries[i].value) ==
      was + EncodeEntries(v, i + 1)
  {
    hide Encode;
  }

  function Lesser(a: nat, b: nat): nat { if a < b then a else b }

  lemma BytesConcat(data: seq<byte>, p: nat, m: nat, n: nat)
    ensures Bytes(data, p, m) + Bytes(data, p + m, n) == Bytes(data, p, m + n)
  {
  }

  // ---------------------------------------------------------------- whole files

  ghost function EncodeAll(vs: seq<Val>, n: nat): seq<byte>
    requires n <= |vs|
  {
    if n == 0 then [] else EncodeAll(vs, n - 1) + Encode(vs[n - 1])
  }

  method SaveAll(file: Sink, globals: seq<byte>, vs: seq<Val>)
    requires file.content == []
    modifies file
    ensures file.content == HEADER + globals + EncodeAll(vs, |vs|) + TRAILER
  {
    hide Encode;
    var os := new Save(file);
    os.Open(globals);
    for i := 0 to |vs|
      invariant os.Valid() && fresh(os) && fresh(os.buf) && os.file == file
      invariant os.Stream() == HEADER + globals + EncodeAll(vs, i)
    {
      os.Put(vs[i]);
    }
    os.Close();
  }

  /** The values of the first n shapes read from p on, and the position behind them. */
  function DecodeAll(shapes: seq<Shape>, data: seq<byte>, p: nat, n: nat): (seq<Val>, nat)
    requires n <= |shapes|
  {
    if n == 0 then ([], p)
    else
      var (vs, q) := DecodeAll(shapes, data, p, n - 1);
      var (v, r) := Decode(shapes[n - 1], data, q);
      (vs + [v], r)
  }

  /**
   Restoring, from any file: the values are read one behind the other, and it succeeds exactly when
   both signatures are where they are expected, however the reads are cut into pieces.
   */
  method RestoreAll(file: Source, size: nat, shapes: seq<Shape>) returns (ok: bool, got: seq<byte>, out: seq<Val>)
    requires file.pos == 0
    modifies file
    ensures var data, start := file.data, |HEADER| + size;
      && got == Bytes(data, |HEADER|, size) && out == DecodeAll(shapes, data, start, |shapes|).0
      && (ok <==>
           && Bytes(data, 0, |HEADER|) == HEADER
           && Bytes(data, DecodeAll(shapes, data, start, |shapes|).1, |TRAILER|) == TRAILER)
  {
    hide Decode, Bytes, At;
    var os := new Restore(file);
    var started, g := os.Open(size);
    got, out := g, [];
    for i := 0 to |shapes|
      invariant os.Valid() && fresh(os) && fresh(os.buf) && os.file == file
      invariant (out, os.done) == DecodeAll(shapes, file.data, |HEADER| + size, i)
    {
      var v := os.Get(shapes[i]);
      out := out + [v];
    }
    var closed := os.Close();
    ok := started && closed;
  }

  lemma {:induction false} AllDecoded(data: seq<byte>, p: nat, vs: seq<Val>, shapes: seq<Shape>, n: nat)
    requires n <= |vs| && AllStorable(vs, shapes) && Holds(data, p, EncodeAll(vs, |vs|))
    ensures DecodeAll(shapes, data, p, n) == (vs[..n], p + |EncodeAll(vs, n)|)
  {
    hide Encode, Decode, Storable, Holds;
    if n > 0 {
      AllDecoded(data, p, vs, shapes, n - 1);
      ValueReads(data, p, vs, n - 1, shapes[n - 1]);
      assert vs[..n] == vs[..n - 1] + [vs[n - 1]];
    }
  }

  /** A saved file holds both signatures and gives the saved values back. */
  lemma SavedRestores(data: seq<byte>, globals: seq<byte>, vs: seq<Val>, shapes: seq<Shape>)
    requires AllStorable(vs, shapes) && data == HEADER + globals + EncodeAll(vs, |vs|) + TRAILER
    ensures var start := |HEADER| + |globals|;
      && Bytes(data, 0, |HEADER|) == HEADER && Bytes(data, |HEADER|, |globals|) == globals
      && DecodeAll(shapes, data, start, |vs|).0 == vs
      && Bytes(data, DecodeAll(shapes, data, start, |vs|).1, |TRAILER|) == TRAILER
  {
    hide EncodeAll, DecodeAll, Holds, Bytes, Decode, Encode, Storable;
    SavedParts(data, globals, vs);
    WholeDecoded(data, |HEADER| + |globals|, vs, shapes);
  }

  ghost predicate AllStorable(vs: seq<Val>, shapes: seq<Shape>) {
    |vs| == |shapes| && forall i :: 0 <= i < |vs| ==> Storable(vs[i], shapes[i])
  }

  lemma WholeDecoded(data: seq<byte>, p: nat, vs: seq<Val>, shapes: seq<Shape>)
    requires AllStorable(vs, shapes) && Holds(data, p, EncodeAll(vs, |vs|))
    ensures DecodeAll(shapes, data, p, |vs|) == (vs, p + |EncodeAll(vs, |vs|)|)
  {
    hide EncodeAll, DecodeAll, Storable, Holds;
    AllDecoded(data, p, vs, shapes, |vs|);
    assert vs[..|vs|] == vs;
  }

  /** The value read where the first i values end. */
  lemma ValueReads(data: seq<byte>, p: nat, vs: seq<Val>, i: nat, s: Shape)
    requires i < |vs| && Storable(vs[i], s) && Holds(data, p, EncodeAll(vs, |vs|))
    ensures Decode(s, data, p + |EncodeAll(vs, i)|) == (vs[i], p + |EncodeAll(vs, i + 1)|)
  {
    hide Encode, Decode, Storable, Holds;
    SavedValue(data, p, vs, i);
    RoundTrip(vs[i], s, data, p + |EncodeAll(vs, i)|);
  }

  lemma SavedParts(data: seq<byte>, globals: seq<byte>, vs: seq<Val>)
    requires data == HEADER + globals + EncodeAll(vs, |vs|) + TRAILER
    ensures Bytes(data, 0, |HEADER|) == HEADER && Bytes(data, |HEADER|, |globals|) == globals
    ensures Holds(data, |HEADER| + |globals|, EncodeAll(vs, |vs|))
    ensures Bytes(data, |HEADER| + |globals| + |EncodeAll(vs, |vs|)|, |TRAILER|) == TRAILER
  {
    var e := EncodeAll(vs, |vs|);
    assert data[0..|data|] == data;
    HoldsParts(data, 0, HEADER + globals + e, TRAILER);
    HoldsParts(data, 0, HEADER + globals, e);
    HoldsParts(data, 0, HEADER, globals);
    HoldsBytes(data, 0, HEADER);
    HoldsBytes(data, |HEADER|, globals);
    HoldsBytes(data, |HEADER| + |globals| + |e|, TRAILER);
  }

  lemma {:induction false} PrefixHeld(data: seq<byte>, p: nat, vs: seq<Val>, m: nat, n: nat)
    requires m <= n <= |vs| && Holds(data, p, EncodeAll(vs, n))
    ensures Holds(data, p, EncodeAll(vs, m))
    decreases n
  {
    if m < n {
      HoldsParts(data, p, EncodeAll(vs, n - 1), Encode(vs[n - 1]));
      PrefixHeld(data, p, vs, m, n - 1);
    }
  }

  lemma SavedValue(data: seq<byte>, p: nat, vs: seq<Val>, i: nat)
    requires i < |vs| && Holds(data, p, EncodeAll(vs, |vs|))
    ensures Holds(data, p + |EncodeAll(vs, i)|, Encode(vs[i]))
  {
    hide Holds, Encode;
    PrefixHeld(data, p, vs, i + 1, |vs|);
    HoldsParts(data, p, EncodeAll(vs, i), Encode(vs[i]));
  }
}
