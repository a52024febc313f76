/** The wire format by the numbers of RFC 7011, byte by byte. */
module IpfixLayout {
  import opened Bytes
  import opened Options
  import opened IpfixWire
  import opened IpfixRoundTrip

  /** Numbers are written and read with the highest byte first. */
  lemma NetworkOrder(n: nat, s: bytes, i: nat)
    ensures n < 0x1_0000 ==> U16(n) == [n / 0x100, n % 0x100]
    ensures n < 0x1_0000_0000 ==> U32(n) == [n / 0x100_0000, n / 0x1_0000 % 0x100, n / 0x100 % 0x100, n % 0x100]
    ensures i + 2 <= |s| ==> Read16(s, i) == 0x100 * s[i] as int + s[i + 1]
    ensures i + 4 <= |s| ==>
      Read32(s, i) == 0x100_0000 * s[i] as int + 0x1_0000 * s[i + 1] as int + 0x100 * s[i + 2] as int + s[i + 3]
  {
    BigEndianBytes(n);
  }

  /** A set: its id, its length with these four bytes, and what is in it (section 3.3 of RFC 7011). */
  lemma SetLayout(id: nat, body: bytes)
    requires id < 0x1_0000 && |body| + 4 < 0x1_0000
    ensures var s := SetBytes(id, body);
      |s| == 4 + |body| && Read16(s, 0) == id && Read16(s, 2) == |s| && s[4..] == body
  {
    hide Read16;
    assert body + [] == body && SetBytes(id, body) + [] == SetBytes(id, body);
    SetHeadBack(id, body, []);
  }

  /** Templates with scope fields go in sets of id 3, others in sets of id 2, and records in sets of their template's id
      (section 3.3.2). */
  lemma SetIds(t: Template, records: seq<seq<bytes>>)
    ensures ContentId(TemplateOf(t)) == if t.nscope > 0 then 3 else 2
    ensures ContentId(RecordsOf(t, records)) == t.tid
  {
  }

  /** A template: its id, the number of fields, with scope fields their number too, and the fields (section 3.4). */
  lemma TemplateLayout(t: Template)
    requires ValidTemplate(t)
    ensures var s, k := TemplateBody(t), if t.nscope > 0 then 6 else 4;
      && |s| >= k && Read16(s, 0) == t.tid && Read16(s, 2) == |t.fields|
      && (t.nscope > 0 ==> Read16(s, 4) == t.nscope)
      && s[k..] == FieldSpecs(t.fields)
  {
    hide Read16, FieldSpecs;
    ReadHeadBack(t, FieldSpecs(t.fields));
    var a, b, c, r := U16(t.tid), U16(|t.fields|), U16(t.nscope), FieldSpecs(t.fields);
    if t.nscope > 0 {
      Associative(a, b + c, r);
      Associative(b, c, r);
      ReadTwo(t.tid, |t.fields|, c + r);
      Read16Front(t.nscope, r);
      Read16Behind(b, c + r, 0);
      Read16Behind(a, b + (c + r), 2);
    } else {
      Associative(a, b, r);
      ReadTwo(t.tid, |t.fields|, r);
    }
  }

  /** A field: the element's number and length; the highest bit says that an enterprise number follows (section 3.2). */
  lemma FieldLayout(f: Field)
    requires ValidField(f)
    ensures var s := FieldSpec(f);
      && Read16(s, 2) == f.flength
      && (f.eno == 0 ==> |s| == 4 && Read16(s, 0) == f.ftype)
      && (f.eno != 0 ==> |s| == 8 && Read16(s, 0) == f.ftype + 0x8000 && Read32(s, 4) == f.eno)
  {
    hide Read16, Read32, U16, U32;
    var b, c := U16(f.flength), U32(f.eno);
    if f.eno == 0 {
      assert b + [] == b;
      ReadTwo(f.ftype, f.flength, []);
    } else {
      var a := U16(f.ftype + VENDOR_BIT);
      ReadTwo(f.ftype + VENDOR_BIT, f.flength, c);
      assert c + [] == c;
      Read32Front(f.eno, []);
      Read32Behind(b, c, 0);
      Read32Behind(a, b + c, 2);
    }
  }

  /** The length of a variable-length value: one byte up to 254, or 255 and two bytes (section 7). */
  lemma LengthLayout(f: Field, len: nat)
    requires len < 0x1_0000
    ensures LengthPrefix(f, len) ==
      if f.flength != 65535 then [] else if len <= 254 then [len] else [255, len / 0x100, len % 0x100]
  {
    BigEndianBytes(len);
  }

  /** Numbers of one, two, four and eight bytes, and floats of four and eight, are turned round; other numbers are
      overwritten with ones; everything else is left. */
  lemma ValueLayout(c: Coding, v: bytes, i: nat)
    requires i < |v|
    ensures |Coded(c, v)| == |v|
    ensures Coded(c, v)[i] ==
      if c.BytesCoding? then v[i]
      else if |v| == 4 || |v| == 8 || (c.IntCoding? && (|v| == 1 || |v| == 2)) then v[|v| - 1 - i] else 0xff
  {
  }

  /** What a collector makes of the length of a value. */
  lemma LengthsRead(f: Field, s: bytes)
    ensures f.flength != 65535 ==> ReadLength(f, s) == Some((f.flength, 0))
    ensures f.flength == 65535 && s != [] && s[0] <= 254 ==> ReadLength(f, s) == Some((s[0], 1))
    ensures f.flength == 65535 && |s| >= 3 && s[0] == 255 ==>
      ReadLength(f, s).Some? && ReadLength(f, s).value.0 == 0x100 * s[1] as int + s[2] && ReadLength(f, s).value.1 == 3
    ensures ReadLength(f, s) == None <==> f.flength == 65535 && (s == [] || (s[0] == 255 && |s| < 3))
  {
  }
}
