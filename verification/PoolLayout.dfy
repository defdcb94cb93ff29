/**
 The record layout of a pool file: fixed-width blocks, each a zero-padded key field
 followed by a zero-padded value field.
 */
module PoolLayout {
  import opened Results
  import opened Bytes
  import opened KvpErrors
  import opened Utf8

  const WIRE_MAX_KEY_BYTES: nat := 512
  const WIRE_MAX_VALUE_BYTES: nat := 2048
  const RECORD_SIZE: nat := WIRE_MAX_KEY_BYTES + WIRE_MAX_VALUE_BYTES

  datatype Record = Record(key: Text, value: Text)

  /** One physical record. */
  type Block = b: seq<byte> | |b| == RECORD_SIZE witness seq(RECORD_SIZE, _ => NUL)

  predicate Whole(c: seq<byte>) {
    |c| % RECORD_SIZE == 0
  }

  /** The physical records of a file; a trailing partial record is not one of them. */
  function Blocks(c: seq<byte>): (bs: seq<Block>)
    ensures |bs| == |c| / RECORD_SIZE
  {
    seq(|c| / RECORD_SIZE, i requires 0 <= i < |c| / RECORD_SIZE =>
      c[i * RECORD_SIZE..(i + 1) * RECORD_SIZE])
  }

  /** What a field says: its bytes up to the first NUL. */
  function FieldText(field: Text): Text {
    field[..Find(field, NUL)]
  }

  function KeyOf(b: Block): Text {
    FieldText(b[..WIRE_MAX_KEY_BYTES])
  }

  function ValueOf(b: Block): Text {
    FieldText(b[WIRE_MAX_KEY_BYTES..])
  }

  function RecordOf(b: Block): Record {
    Record(KeyOf(b), ValueOf(b))
  }

  /** The file as the sequence of its records. */
  function Records(c: seq<byte>): (rs: seq<Record>)
    ensures |rs| == |c| / RECORD_SIZE == |Blocks(c)|
  {
    seq(|c| / RECORD_SIZE, i requires 0 <= i < |c| / RECORD_SIZE => RecordOf(Blocks(c)[i]))
  }

  /** A record the store can return: both fields are UTF-8. */
  predicate Decodes(r: Record) {
    ValidUtf8(r.key) && ValidUtf8(r.value)
  }

  function DecodeRecord(data: seq<byte>): (r: Result<Record, IoError>)
    ensures r.Ok? <==> |data| == RECORD_SIZE && Decodes(RecordOf(data))
    ensures r.Ok? ==> r.value == RecordOf(data)
  {
    if |data| != RECORD_SIZE then Err(Other)
    else
      var key := FieldText(data[..WIRE_MAX_KEY_BYTES]);
      var value := FieldText(data[WIRE_MAX_KEY_BYTES..]);
      if ValidUtf8(key) && ValidUtf8(value) then Ok(Record(key, value)) else Err(InvalidData)
  }

  /** `s` cut or zero-padded to `width` bytes. */
  function Pad(s: Text, width: nat): (r: Text)
    ensures |r| == width
  {
    if |s| >= width then s[..width] else s + seq(width - |s|, _ => NUL)
  }

  function EncodeRecord(key: Text, value: Text): Block {
    Pad(key, WIRE_MAX_KEY_BYTES) + Pad(value, WIRE_MAX_VALUE_BYTES)
  }

  /** The block with its value field replaced; the key field's bytes stay as they are. */
  function WithValue(b: Block, value: Text): Block {
    b[..WIRE_MAX_KEY_BYTES] + Pad(value, WIRE_MAX_VALUE_BYTES)
  }

  /** What a field of this width keeps of `s`: what fits, up to its first NUL. */
  function Kept(s: Text, width: nat): Text {
    FieldText(Pad(s, width))
  }

  lemma PadRoundTrip(s: Text, width: nat)
    requires |s| <= width && NulFree(s)
    ensures Kept(s, width) == s
  {
    var p := Pad(s, width);
    var n := Find(p, NUL);
    assert forall i :: 0 <= i < |s| ==> p[i] == s[i] && s[i] in s;
    assert |s| < width ==> p[|s|] == NUL;
    assert n == |s|;
    assert p[..n] == s;
  }

  /** The record that is left of a key and a value once they are stored. */
  function StoredRecord(key: Text, value: Text): Record {
    Record(Kept(key, WIRE_MAX_KEY_BYTES), Kept(value, WIRE_MAX_VALUE_BYTES))
  }

  /** Text that a record stores unchanged; store validation lets through nothing else. */
  predicate FitsRecord(key: Text, value: Text) {
    && NulFree(key) && |key| <= WIRE_MAX_KEY_BYTES
    && NulFree(value) && |value| <= WIRE_MAX_VALUE_BYTES
  }

  lemma EncodedFields(key: Text, value: Text)
    ensures RecordOf(EncodeRecord(key, value)) == StoredRecord(key, value)
    ensures FitsRecord(key, value) ==> StoredRecord(key, value) == Record(key, value)
  {
    var b := EncodeRecord(key, value);
    assert b[..WIRE_MAX_KEY_BYTES] == Pad(key, WIRE_MAX_KEY_BYTES);
    assert b[WIRE_MAX_KEY_BYTES..] == Pad(value, WIRE_MAX_VALUE_BYTES);
    if FitsRecord(key, value) {
      PadRoundTrip(key, WIRE_MAX_KEY_BYTES);
      PadRoundTrip(value, WIRE_MAX_VALUE_BYTES);
    }
  }

  /** Encoding then decoding returns the record, for everything store validation lets through. */
  lemma EncodeDecode(key: Text, value: Text)
    requires FitsRecord(key, value) && ValidUtf8(key) && ValidUtf8(value)
    ensures DecodeRecord(EncodeRecord(key, value)) == Ok(Record(key, value))
  {
    EncodedFields(key, value);
  }

  /** The bytes of a record: 512 for the key, 2048 for the value, each zero behind what fits. */
  lemma RecordBytes(key: Text, value: Text)
    ensures var b: seq<byte> := EncodeRecord(key, value);
            && |b| == 2560
            && (forall i :: 0 <= i < 512 ==> b[i] == if i < |key| then key[i] else 0)
            && (forall i :: 0 <= i < 2048 ==> b[512 + i] == if i < |value| then value[i] else 0)
  {
  }

  /** `text` is what stands in `field` up to its first zero byte. */
  predicate IsFieldText(field: seq<byte>, text: Text) {
    text <= field && 0 !in text && (|text| < |field| ==> field[|text|] == 0)
  }

  lemma FieldTextExactly(field: seq<byte>, text: Text)
    ensures FieldText(field) == text <==> IsFieldText(field, text)
  {
    var n := Find(field, NUL);
    assert forall i :: 0 <= i < |text| && text <= field ==> field[i] == text[i] && text[i] in text;
    if IsFieldText(field, text) {
      assert n == |text|;
    }
  }

  /** Decoding a block, byte by byte. */
  lemma DecodesExactly(data: seq<byte>, key: Text, value: Text)
    ensures DecodeRecord(data) == Ok(Record(key, value)) <==>
            && |data| == 2560 && ValidUtf8(key) && ValidUtf8(value)
            && IsFieldText(data[..512], key) && IsFieldText(data[512..], value)
    ensures DecodeRecord(data).Err? ==> DecodeRecord(data).error == if |data| == 2560 then InvalidData else Other
  {
    hide FieldText, IsFieldText, ValidUtf8;
    if |data| == 2560 {
      FieldTextExactly(data[..512], key);
      FieldTextExactly(data[512..], value);
    }
  }

  lemma WithValueDecodes(b: Block, value: Text)
    ensures RecordOf(WithValue(b, value)) == RecordOf(b).(value := Kept(value, WIRE_MAX_VALUE_BYTES))
  {
    assert WithValue(b, value)[..WIRE_MAX_KEY_BYTES] == b[..WIRE_MAX_KEY_BYTES];
    assert WithValue(b, value)[WIRE_MAX_KEY_BYTES..] == Pad(value, WIRE_MAX_VALUE_BYTES);
  }

  // Byte-level edits of a file and what they do to its records.

  /** The file after writing `data` at `pos`; a gap past the end fills with zeros. */
  function WriteAt(c: seq<byte>, pos: nat, data: seq<byte>): seq<byte> {
    var base := if |c| < pos then c + seq(pos - |c|, _ => NUL) else c;
    base[..pos] + data + (if pos + |data| <= |base| then base[pos + |data|..] else [])
  }

  /** The file after `set_len(n)`. */
  function Resize(c: seq<byte>, n: nat): seq<byte> {
    if n <= |c| then c[..n] else c + seq(n - |c|, _ => NUL)
  }

  /** A write, byte by byte. */
  lemma WrittenBytes(c: seq<byte>, pos: nat, data: seq<byte>)
    ensures var d, end := WriteAt(c, pos, data), pos + |data|;
            && |d| == (if |c| < end then end else |c|)
            && forall i :: 0 <= i < |d| ==>
                 d[i] == if pos <= i < end then data[i - pos] else if i < |c| then c[i] else 0
  {
  }

  lemma ResizedBytes(c: seq<byte>, n: nat)
    ensures var d := Resize(c, n);
            |d| == n && forall i :: 0 <= i < n ==> d[i] == if i < |c| then c[i] else 0
  {
  }

  /** A write inside the file changes only the bytes it covers. */
  lemma WrittenInside(c: seq<byte>, pos: nat, data: seq<byte>)
    requires pos + |data| <= |c|
    ensures var d := WriteAt(c, pos, data);
            && |d| == |c| && d[pos..pos + |data|] == data
            && (forall lo, hi :: 0 <= lo <= hi <= pos ==> d[lo..hi] == c[lo..hi])
            && (forall lo, hi :: pos + |data| <= lo <= hi <= |c| ==> d[lo..hi] == c[lo..hi])
  {
  }

  lemma WriteBlock(c: seq<byte>, i: nat, b: Block)
    requires Whole(c) && i < |Blocks(c)|
    ensures Whole(WriteAt(c, i * RECORD_SIZE, b))
    ensures Blocks(WriteAt(c, i * RECORD_SIZE, b)) == Blocks(c)[i := b]
    ensures Records(WriteAt(c, i * RECORD_SIZE, b)) == Records(c)[i := RecordOf(b)]
  {
    var d := WriteAt(c, i * RECORD_SIZE, b);
    WrittenInside(c, i * RECORD_SIZE, b);
    forall j | 0 <= j < |Blocks(c)|
      ensures Blocks(d)[j] == Blocks(c)[i := b][j]
    {
      hide WriteAt;
      var lo, hi := j * RECORD_SIZE, (j + 1) * RECORD_SIZE;
      assert Blocks(d)[j] == d[lo..hi] && Blocks(c)[j] == c[lo..hi];
      assert j < i ==> hi <= i * RECORD_SIZE;
      assert j > i ==> lo >= (i + 1) * RECORD_SIZE;
    }
  }

  /** Copying one physical record over another copies what it says. */
  lemma CopyBlock(c: seq<byte>, from: nat, to: nat)
    requires Whole(c) && from < |Records(c)| && to < |Records(c)|
    ensures Whole(WriteAt(c, to * RECORD_SIZE, Blocks(c)[from]))
    ensures Records(WriteAt(c, to * RECORD_SIZE, Blocks(c)[from])) == Records(c)[to := Records(c)[from]]
    ensures |WriteAt(c, to * RECORD_SIZE, Blocks(c)[from])| == |c|
  {
    WriteBlock(c, to, Blocks(c)[from]);
  }

  lemma WriteValueField(c: seq<byte>, i: nat, value: Text)
    requires Whole(c) && i < |Records(c)|
    ensures var d := WriteAt(c, i * RECORD_SIZE + WIRE_MAX_KEY_BYTES, Pad(value, WIRE_MAX_VALUE_BYTES));
            && Whole(d)
            && Records(d) == Records(c)[i := Records(c)[i].(value := Kept(value, WIRE_MAX_VALUE_BYTES))]
  {
    var pos := i * RECORD_SIZE;
    var b := WithValue(Blocks(c)[i], value);
    assert WriteAt(c, pos + WIRE_MAX_KEY_BYTES, Pad(value, WIRE_MAX_VALUE_BYTES)) == WriteAt(c, pos, b) by {
      assert c[pos..pos + WIRE_MAX_KEY_BYTES] == Blocks(c)[i][..WIRE_MAX_KEY_BYTES];
      assert c[..pos + WIRE_MAX_KEY_BYTES] == c[..pos] + c[pos..pos + WIRE_MAX_KEY_BYTES];
    }
    WriteBlock(c, i, b);
    WithValueDecodes(Blocks(c)[i], value);
  }

  lemma AppendBlock(c: seq<byte>, b: Block)
    requires Whole(c)
    ensures Whole(WriteAt(c, |c|, b))
    ensures Blocks(WriteAt(c, |c|, b)) == Blocks(c) + [b]
    ensures Records(WriteAt(c, |c|, b)) == Records(c) + [RecordOf(b)]
  {
    var d := WriteAt(c, |c|, b);
    assert d == c + b;
    assert |Blocks(d)| == |Blocks(c)| + 1;
    forall j | 0 <= j < |Blocks(d)|
      ensures Blocks(d)[j] == (Blocks(c) + [b])[j]
    {
      assert Blocks(d)[j] == d[j * RECORD_SIZE..(j + 1) * RECORD_SIZE];
    }
  }

  /** A value field written where there is no record yet makes one with an empty key. */
  lemma WriteValuePastEnd(c: seq<byte>, value: Text)
    requires Whole(c)
    ensures var d := WriteAt(c, |c| + WIRE_MAX_KEY_BYTES, Pad(value, WIRE_MAX_VALUE_BYTES));
            Whole(d) && Records(d) == Records(c) + [Record([], Kept(value, WIRE_MAX_VALUE_BYTES))]
  {
    var zeros := seq(WIRE_MAX_KEY_BYTES, _ => NUL);
    var b: Block := zeros + Pad(value, WIRE_MAX_VALUE_BYTES);
    assert WriteAt(c, |c| + WIRE_MAX_KEY_BYTES, Pad(value, WIRE_MAX_VALUE_BYTES)) == c + b == WriteAt(c, |c|, b);
    AppendBlock(c, b);
    assert b[..WIRE_MAX_KEY_BYTES] == zeros && b[WIRE_MAX_KEY_BYTES..] == Pad(value, WIRE_MAX_VALUE_BYTES);
    assert Find(zeros, NUL) == 0;
  }

  /** Writing the value field of record `i`, or of the place one past the end. */
  lemma OverwrittenField(c: seq<byte>, i: nat, value: Text)
    requires Whole(c) && i <= |Records(c)|
    ensures var d := WriteAt(c, i * RECORD_SIZE + WIRE_MAX_KEY_BYTES, Pad(value, WIRE_MAX_VALUE_BYTES));
            var kept := Kept(value, WIRE_MAX_VALUE_BYTES);
            && Whole(d)
            && (i < |Records(c)| ==> |d| == |c| && Records(d) == Records(c)[i := Records(c)[i].(value := kept)])
            && (i == |Records(c)| ==> Records(d) == Records(c) + [Record([], kept)])
  {
    if i < |Records(c)| {
      WriteValueField(c, i, value);
      WrittenInside(c, i * RECORD_SIZE + WIRE_MAX_KEY_BYTES, Pad(value, WIRE_MAX_VALUE_BYTES));
    } else {
      WriteValuePastEnd(c, value);
      assert |c| == i * RECORD_SIZE;
    }
  }

  /** Copying a physical record behind the end appends what it says. */
  lemma CopyPastEnd(c: seq<byte>, from: nat)
    requires Whole(c) && from < |Records(c)|
    ensures Whole(WriteAt(c, |c|, Blocks(c)[from]))
    ensures Records(WriteAt(c, |c|, Blocks(c)[from])) == Records(c) + [Records(c)[from]]
    ensures |WriteAt(c, |c|, Blocks(c)[from])| == |c| + RECORD_SIZE
  {
    AppendBlock(c, Blocks(c)[from]);
  }

  lemma TruncateBlocks(c: seq<byte>, n: nat)
    requires Whole(c) && n <= |Blocks(c)|
    ensures Whole(Resize(c, n * RECORD_SIZE))
    ensures Blocks(Resize(c, n * RECORD_SIZE)) == Blocks(c)[..n]
    ensures Records(Resize(c, n * RECORD_SIZE)) == Records(c)[..n]
  {
    hide DecodeRecord;
    var d := Resize(c, n * RECORD_SIZE);
    forall j | 0 <= j < n
      ensures Blocks(d)[j] == Blocks(c)[..n][j]
    {
      var lo, hi := j * RECORD_SIZE, (j + 1) * RECORD_SIZE;
      assert d[lo..hi] == c[lo..hi];
    }
  }
}
