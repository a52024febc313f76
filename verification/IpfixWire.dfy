/** The IPFIX wire format as ipfix.c writes it and ipfix_col.c reads it, as functions on byte strings. */
module IpfixWire {
  import opened Bytes
  import opened Options

  const VERSION := 10
  const VERSION_NF9 := 9
  const HDR_BYTES := 16
  const HDR_BYTES_NF9 := 20
  const SETID_TEMPLATE_NF9 := 0
  const SETID_OPTTEMPLATE_NF9 := 1
  const SETID_TEMPLATE := 2
  const SETID_OPTTEMPLATE := 3
  const VARLEN := 65535
  const NOENO := 0
  const VENDOR_BIT := 0x8000

  /** A number in two bytes and in four bytes, in network order; higher bits are cut off. */
  function U16(n: int): (s: bytes)
    ensures |s| == 2
  {
    BigEndian(n, 2)
  }

  function U32(n: int): (s: bytes)
    ensures |s| == 4
  {
    BigEndian(n, 4)
  }

  function Read16(s: bytes, i: nat): (n: nat)
    requires i + 2 <= |s|
    ensures n < 0x1_0000
  {
    s[i] as int * 0x100 + s[i + 1]
  }

  function Read32(s: bytes, i: nat): (n: nat)
    requires i + 4 <= |s|
    ensures n < 0x1_0000_0000
  {
    Read16(s, i) * 0x1_0000 + Read16(s, i + 2)
  }

  /** Reading undoes writing, whatever follows. */
  lemma Read16Front(n: nat, r: bytes)
    requires n < 0x1_0000
    ensures Read16(U16(n) + r, 0) == n
  {
    BigEndianBytes(n);
    var s := U16(n) + r;
    assert s[0] == U16(n)[0] && s[1] == U16(n)[1];
  }

  lemma Read32Front(n: nat, r: bytes)
    requires n < 0x1_0000_0000
    ensures Read32(U32(n) + r, 0) == n
  {
    BigEndianBytes(n);
    var s := U32(n) + r;
    assert s[0] == U32(n)[0] && s[1] == U32(n)[1] && s[2] == U32(n)[2] && s[3] == U32(n)[3];
    FourBytes(n);
  }

  /** Reading behind something. */
  lemma Read16Behind(a: bytes, s: bytes, i: nat)
    requires i + 2 <= |s|
    ensures Read16(a + s, |a| + i) == Read16(s, i)
  {
    assert (a + s)[|a| + i] == s[i] && (a + s)[|a| + i + 1] == s[i + 1];
  }

  lemma Read32Behind(a: bytes, s: bytes, i: nat)
    requires i + 4 <= |s|
    ensures Read32(a + s, |a| + i) == Read32(s, i)
  {
    Read16Behind(a, s, i);
    Read16Behind(a, s, i + 2);
  }

  lemma FourBytes(n: nat)
    requires n < 0x1_0000_0000
    ensures n / 0x100_0000 % 256 * 0x100_0000 + n / 0x1_0000 % 256 * 0x1_0000 + n / 0x100 % 256 * 0x100 + n % 256 == n
  {
    var a, b := n / 0x100, n / 0x1_0000;
    assert a / 256 == b && b / 256 == n / 0x100_0000;
  }

  // ---------------------------------------------------------------- field values

  datatype Coding = IntCoding | FloatCoding | BytesCoding

  /** The coding of an information element, by enterprise number and element number; bytes when unknown. */
  type Info = (nat, nat) -> Coding

  predicate Supported(c: Coding, len: nat) {
    match c
    case IntCoding => len == 1 || len == 2 || len == 4 || len == 8
    case FloatCoding => len == 4 || len == 8
    case BytesCoding => true
  }

  function Reversed(s: bytes): (r: bytes)
    ensures |r| == |s|
    ensures forall i :: 0 <= i < |s| ==> r[i] == s[|s| - 1 - i]
  {
    seq(|s|, i requires 0 <= i < |s| => s[|s| - 1 - i])
  }

  function Filled(len: nat): (r: bytes)
    ensures |r| == len
    ensures forall i :: 0 <= i < len ==> r[i] == 0xff
  {
    seq(len, i => 0xff)
  }

  /** Host order to network order on a little-endian host, and back. Numbers of a length that is not supported
      are overwritten. */
  function Coded(c: Coding, v: bytes): (r: bytes)
    ensures |r| == |v|
  {
    if c == BytesCoding then v else if Supported(c, |v|) then Reversed(v) else Filled(|v|)
  }

  /** A value is decoded to what was encoded exactly when its length is supported, or nothing is lost. */
  lemma CodedTwiceIff(c: Coding, v: bytes)
    ensures Coded(c, Coded(c, v)) == v <==> Supported(c, |v|) || v == Filled(|v|)
  {
    if c != BytesCoding && Supported(c, |v|) {
      assert Reversed(Reversed(v)) == v;
    }
  }

  // ---------------------------------------------------------------- templates

  datatype Field = Field(eno: nat, ftype: nat, flength: nat)

  /** The first `nscope` fields are scope fields. An option template has some, a data template has none. */
  datatype Template = Template(tid: nat, nscope: nat, fields: seq<Field>)

  predicate ValidField(f: Field) {
    f.eno < 0x1_0000_0000 && f.ftype < VENDOR_BIT && f.flength < 0x1_0000
  }

  predicate ValidTemplate(t: Template) {
    && 256 <= t.tid < 0x1_0000 && 0 < |t.fields| < 0x1_0000 && t.nscope <= |t.fields|
    && forall f :: f in t.fields ==> ValidField(f)
  }

  function FieldSpec(f: Field): (s: bytes)
    ensures |s| == if f.eno == NOENO then 4 else 8
  {
    if f.eno == NOENO then U16(f.ftype) + U16(f.flength)
    else U16(f.ftype + VENDOR_BIT) + (U16(f.flength) + U32(f.eno))
  }

  function FieldSpecs(fields: seq<Field>): (s: bytes)
    ensures |s| >= 4 * |fields|
  {
    if fields == [] then [] else FieldSpec(fields[0]) + FieldSpecs(fields[1..])
  }

  function TemplateHead(t: Template): (s: bytes)
    ensures |s| == if t.nscope > 0 then 6 else 4
  {
    if t.nscope > 0 then U16(t.tid) + (U16(|t.fields|) + U16(t.nscope)) else U16(t.tid) + U16(|t.fields|)
  }

  function TemplateBody(t: Template): (s: bytes)
    ensures t.fields != [] ==> |s| >= 8
  {
    TemplateHead(t) + FieldSpecs(t.fields)
  }

  /** A field definition, and the bytes it takes. */
  function ReadField(s: bytes): (r: Option<(Field, nat)>)
    ensures r.Some? ==> ValidField(r.value.0) && 4 <= r.value.1 <= |s|
  {
    if |s| < 4 then None else
      var ftype, flength := Read16(s, 0), Read16(s, 2);
      if ftype < VENDOR_BIT then Some((Field(NOENO, ftype, flength), 4))
      else if |s| < 8 then None
      else Some((Field(Read32(s, 4), ftype - VENDOR_BIT, flength), 8))
  }

  function ReadFields(s: bytes, n: nat): (r: Option<(seq<Field>, nat)>)
    ensures r.Some? ==> |r.value.0| == n && 4 * n <= r.value.1 <= |s|
    ensures r.Some? ==> forall f :: f in r.value.0 ==> ValidField(f)
    decreases n
  {
    if n == 0 then Some(([], 0)) else
      var f := ReadField(s);
      if f == None then None else
        var rest := ReadFields(s[f.value.1..], n - 1);
        if rest == None then None else Some(([f.value.0] + rest.value.0, f.value.1 + rest.value.1))
  }

  datatype RecordHead = RecordHead(tid: nat, nfields: nat, nscope: nat, used: nat)

  /** The start of a template record in a set of the given id. */
  function ReadRecordHead(setid: nat, s: bytes): (r: Option<RecordHead>)
    ensures r.Some? ==> r.value.used <= |s| && r.value.tid < 0x1_0000
  {
    if setid == SETID_OPTTEMPLATE then
      if |s| < 6 then None else Some(RecordHead(Read16(s, 0), Read16(s, 2), Read16(s, 4), 6))
    else if setid == SETID_OPTTEMPLATE_NF9 then
      if |s| < 6 || Read16(s, 2) + Read16(s, 4) < |s| then None
      else Some(RecordHead(Read16(s, 0), Read16(s, 2) / 4 + Read16(s, 4) / 4, Read16(s, 2) / 4, 6))
    else if setid == SETID_TEMPLATE || setid == SETID_TEMPLATE_NF9 then
      if |s| < 4 then None else Some(RecordHead(Read16(s, 0), Read16(s, 2), 0, 4))
    else None
  }

  /** What a template record says: nothing that can be read, a definition that ends too early, a definition, the
      withdrawal of one template, or of all. */
  datatype TemplateRecord =
    | Unreadable
    | Malformed(tid: nat)
    | Defines(t: Template, used: nat)
    | Withdraws(tid: nat, used: nat)
    | WithdrawsAll(used: nat)

  function ReadTemplateRecord(setid: nat, s: bytes): (r: TemplateRecord)
    ensures r.Defines? ==> 4 < r.used <= |s| && r.t.fields != []
    ensures r.Withdraws? || r.WithdrawsAll? ==> 4 <= r.used <= |s|
  {
    var h := ReadRecordHead(setid, s);
    if h == None then Unreadable
    else if h.value.nfields == 0 then
      if h.value.tid == setid then WithdrawsAll(h.value.used) else Withdraws(h.value.tid, h.value.used)
    else
      var fs := ReadFields(s[h.value.used..], h.value.nfields);
      if fs == None then Malformed(h.value.tid)
      else Defines(Template(h.value.tid, h.value.nscope, fs.value.0), h.value.used + fs.value.1)
  }

  /** The templates that a collector knows, by their id. */
  type Table = map<nat, Template>

  function Applied(m: Table, r: TemplateRecord): Table {
    match r
    case Unreadable => m
    case Malformed(tid) => m - {tid}
    case Defines(t, _) => m[t.tid := t]
    case Withdraws(tid, _) => m - {tid}
    case WithdrawsAll(_) => map[]
  }

  /** The template records of a set. Up to four bytes at the end are padding; the first bad record ends the set. */
  function ReadTemplateSet(m: Table, setid: nat, s: bytes): Table
    decreases |s|
  {
    if |s| <= 4 then m else
      var r := ReadTemplateRecord(setid, s);
      if r.Unreadable? || r.Malformed? then Applied(m, r) else ReadTemplateSet(Applied(m, r), setid, s[r.used..])
  }

  // ---------------------------------------------------------------- data records

  function LengthPrefix(f: Field, len: nat): bytes {
    if f.flength != VARLEN then [] else if len > 254 then [0xff] + U16(len) else [len]
  }

  function FieldBytes(info: Info, f: Field, v: bytes): bytes {
    LengthPrefix(f, |v|) + Coded(info(f.eno, f.ftype), v)
  }

  /** The values of a record fit its template: fixed lengths are met, and numbers have a supported length. */
  predicate Fits(info: Info, f: Field, v: bytes) {
    && |v| < 0x1_0000
    && (f.flength != VARLEN ==> |v| == f.flength)
    && Supported(info(f.eno, f.ftype), |v|)
  }

  predicate AllFit(info: Info, fields: seq<Field>, vals: seq<bytes>) {
    |vals| == |fields| && forall i :: 0 <= i < |vals| ==> Fits(info, fields[i], vals[i])
  }

  function RecordBytes(info: Info, fields: seq<Field>, vals: seq<bytes>): bytes
    decreases |vals|
  {
    if vals == [] || fields == [] then [] else
      FieldBytes(info, fields[0], vals[0]) + RecordBytes(info, fields[1..], vals[1..])
  }

  /** A record, with the bytes that stand in its place once its values are decoded where they are; or the set is
      too short for it; or the code reads beyond the message. */
  datatype RecordRead = RecordRead(vals: seq<bytes>, image: bytes) | TooShort | Overrun

  /** The length of a value, and the bytes that give it. */
  function ReadLength(f: Field, s: bytes): (r: Option<(nat, nat)>)
    ensures r.Some? ==> r.value.1 <= |s|
  {
    if f.flength != VARLEN then Some((f.flength, 0))
    else if |s| < 1 then None
    else if s[0] != 255 then Some((s[0], 1))
    else if |s| < 3 then None
    else Some((Read16(s, 1), 3))
  }

  datatype ValueRead = ValueRead(v: bytes, image: bytes) | ValueTooShort | ValueOverrun

  /** `s` is the rest of the message and `left` the rest of the set, from which length bytes are not taken off. */
  function ReadValue(info: Info, f: Field, s: bytes, left: int): (r: ValueRead)
    ensures r.ValueRead? ==> |r.image| <= |s|
  {
    var l := ReadLength(f, s);
    if l == None then ValueOverrun
    else if left - l.value.0 < 0 then ValueTooShort
    else if |s| < l.value.1 + l.value.0 then ValueOverrun
    else
      var (len, from) := l.value;
      var v := Coded(info(f.eno, f.ftype), s[from..from + len]);
      ValueRead(v, s[..from] + v)
  }

  function Ahead(v: bytes, image: bytes, r: RecordRead): RecordRead {
    if r.RecordRead? then RecordRead([v] + r.vals, image + r.image) else r
  }

  function ReadRecord(info: Info, fields: seq<Field>, s: bytes, left: int): (r: RecordRead)
    ensures r.RecordRead? ==> |r.image| <= |s| && |r.vals| == |fields|
    decreases |fields|
  {
    if fields == [] then RecordRead([], []) else
      match ReadValue(info, fields[0], s, left)
      case ValueTooShort => TooShort
      case ValueOverrun => Overrun
      case ValueRead(v, image) => Ahead(v, image, ReadRecord(info, fields[1..], s[|image|..], left - |v|))
  }

  datatype Datum = Datum(tid: nat, vals: seq<bytes>)

  /** How reading ended. Endless stands for a record of no bytes, which is read again and again. */
  datatype Ending = Fine | Failed | Beyond | Endless

  /** The records of a set, and the message after it. */
  datatype SetRead = SetRead(records: seq<Datum>, after: bytes, end: Ending)

  /** What follows the set: `left` is how much of the set is left, or how far the last record reached into what
      follows, which then begins with the end of that record as it was decoded. */
  function AfterSet(last: bytes, s: bytes, left: int): (after: bytes)
    requires -|last| <= left <= |s|
    ensures |after| == |s| - left
  {
    if left >= 0 then s[left..] else last[|last| + left..] + s
  }

  function ReadDataSet(info: Info, t: Template, last: bytes, s: bytes, left: int): (r: SetRead)
    requires -|last| <= left <= |s|
    ensures r.end == Fine ==> |r.after| == |s| - left
    decreases |s|
  {
    if left <= 4 then SetRead([], AfterSet(last, s, left), Fine) else
      var r := ReadRecord(info, t.fields, s, left);
      if r.TooShort? then SetRead([], [], Failed)
      else if r.Overrun? then SetRead([], [], Beyond)
      else if r.image == [] then SetRead([], [], Endless)
      else Follow(Datum(t.tid, r.vals), ReadDataSet(info, t, r.image, s[|r.image|..], left - |r.image|))
  }

  function Follow(d: Datum, r: SetRead): SetRead {
    SetRead([d] + r.records, r.after, r.end)
  }

  /** What reading a message makes of a table, the records it yields, and how it ends. */
  datatype Parsed = Parsed(table: Table, records: seq<Datum>, end: Ending)

  function Before(records: seq<Datum>, p: Parsed): Parsed {
    p.(records := records + p.records)
  }

  lemma BeforeBefore(a: seq<Datum>, b: seq<Datum>, p: Parsed)
    ensures Before(a, Before(b, p)) == Before(a + b, p)
  {
    assert a + (b + p.records) == a + b + p.records;
  }

  predicate IsTemplateSet(setid: nat) {
    setid == SETID_TEMPLATE_NF9 || setid == SETID_OPTTEMPLATE_NF9 || setid == SETID_TEMPLATE
    || setid == SETID_OPTTEMPLATE
  }

  /** The sets of a message, at most `count` of them. `err` says that a set without a template was skipped. */
  function ReadSets(info: Info, m: Table, s: bytes, count: nat, err: bool): Parsed
    decreases |s|
  {
    if |s| <= 4 || count == 0 then Parsed(m, [], if err then Failed else Fine) else
      var setid, setlen, body := Read16(s, 0), Read16(s, 2), s[4..];
      if setlen < 4 then ReadSets(info, m, body, count - 1, err)
      else if setlen - 4 > |body| then Parsed(m, [], Fine)
      else
        var rest := body[setlen - 4..];
        if IsTemplateSet(setid) then
          ReadSets(info, ReadTemplateSet(m, setid, body[..setlen - 4]), rest, count - 1, err)
        else if setid > 255 && setid !in m then ReadSets(info, m, rest, count - 1, true)
        else if setid > 255 then
          var d := ReadDataSet(info, m[setid], [], body, setlen - 4);
          if d.end == Fine then Before(d.records, ReadSets(info, m, d.after, count - 1, err))
          else Parsed(m, d.records, d.end)
        else ReadSets(info, m, rest, count - 1, err)
  }

  /** A message. The version has been read, so there are two bytes at least. */
  function ReadMessage(info: Info, m: Table, msg: bytes): Parsed
    requires |msg| >= 2
  {
    if Read16(msg, 0) == VERSION && |msg| >= HDR_BYTES then ReadSets(info, m, msg[HDR_BYTES..], |msg|, false)
    else if Read16(msg, 0) == VERSION_NF9 && |msg| >= HDR_BYTES_NF9 then
      ReadSets(info, m, msg[HDR_BYTES_NF9..], Read16(msg, 2), false)
    else Parsed(m, [], Failed)
  }
}
