/** Where the collector departs from what its input says, and exactly when: withdrawals, padding, sets that end within a
    record, and reading that does not end. */
module IpfixLimits {
  import opened Bytes
  import opened IpfixWire
  import opened IpfixRoundTrip
  import opened Options

  // ---------------------------------------------------------------- withdrawals

  /** A withdrawal as section 8.1 of RFC 7011 defines it, for data and for options templates: an id and no fields. */
  function Withdrawal(tid: nat): (s: bytes)
    ensures |s| == 4
  {
    U16(tid) + U16(0)
  }

  /** What a withdrawal asks for: the id of the set stands for all templates. */
  function Withdrawn(m: Table, setid: nat, tid: nat): Table {
    if tid == setid then map[] else m - {tid}
  }

  lemma WithdrawalHead(tid: nat, rest: bytes)
    requires tid < 0x1_0000
    ensures var s := Withdrawal(tid) + rest; Read16(s, 0) == tid && Read16(s, 2) == 0 && s[4..] == rest
  {
    Associative(U16(tid), U16(0), rest);
    ReadTwo(tid, 0, rest);
  }

  /** In a set of data templates a withdrawal is obeyed exactly when anything follows it in the set. */
  lemma WithdrawalObeyedIff(m: Table, tid: nat, rest: bytes)
    requires tid < 0x1_0000
    ensures ReadTemplateSet(m, SETID_TEMPLATE, Withdrawal(tid) + rest)
      == if rest == [] then m else ReadTemplateSet(Withdrawn(m, SETID_TEMPLATE, tid), SETID_TEMPLATE, rest)
  {
    hide Withdrawal;
    WithdrawalHead(tid, rest);
  }

  function Withdrawals(tids: seq<nat>): bytes {
    if tids == [] then [] else Withdrawal(tids[0]) + Withdrawals(tids[1..])
  }

  function AllWithdrawn(m: Table, setid: nat, tids: seq<nat>): Table
    decreases |tids|
  {
    if tids == [] then m else AllWithdrawn(Withdrawn(m, setid, tids[0]), setid, tids[1..])
  }

  lemma {:induction false} WithdrawalsLength(tids: seq<nat>)
    ensures |Withdrawals(tids)| == 4 * |tids|
  {
    if tids != [] {
      WithdrawalsLength(tids[1..]);
    }
  }

  /** Of a set of withdrawals of data templates, all are obeyed but the last. */
  lemma {:induction false} AllButLastObeyed(m: Table, tids: seq<nat>)
    requires tids != [] && forall t :: t in tids ==> t < 0x1_0000
    ensures ReadTemplateSet(m, SETID_TEMPLATE, Withdrawals(tids))
      == AllWithdrawn(m, SETID_TEMPLATE, tids[..|tids| - 1])
    decreases |tids|
  {
    hide Withdrawal, ReadTemplateSet, Withdrawn;
    var rest := Withdrawals(tids[1..]);
    assert tids[0] in tids && forall t :: t in tids[1..] ==> t in tids;
    WithdrawalsLength(tids[1..]);
    WithdrawalObeyedIff(m, tids[0], rest);
    if |tids| > 1 {
      AllButLastObeyed(Withdrawn(m, SETID_TEMPLATE, tids[0]), tids[1..]);
      assert tids[1..][..|tids| - 2] == tids[..|tids| - 1][1..];
    }
  }

  /** In a set of options templates six bytes are read for a withdrawal. It is obeyed exactly when two bytes or more
      follow it, and reading goes on behind those two. */
  lemma OptionsWithdrawalObeyedIff(m: Table, tid: nat, rest: bytes)
    requires tid < 0x1_0000
    ensures ReadTemplateSet(m, SETID_OPTTEMPLATE, Withdrawal(tid) + rest)
      == if |rest| < 2 then m else ReadTemplateSet(Withdrawn(m, SETID_OPTTEMPLATE, tid), SETID_OPTTEMPLATE, rest[2..])
  {
    hide Withdrawal;
    var s := Withdrawal(tid) + rest;
    WithdrawalHead(tid, rest);
    if |rest| >= 2 {
      assert s[6..] == s[4..][2..];
    }
  }

  /** So of two withdrawals of options templates only the first is obeyed. */
  lemma OnlyFirstOfTwoObeyed(m: Table, a: nat, b: nat)
    requires a < 0x1_0000 && b < 0x1_0000
    ensures ReadTemplateSet(m, SETID_OPTTEMPLATE, Withdrawals([a, b])) == Withdrawn(m, SETID_OPTTEMPLATE, a)
  {
    hide Withdrawal;
    assert [a, b][1..] == [b] && [b][1..] == [] && Withdrawal(b) + [] == Withdrawal(b);
    assert Withdrawals([b]) == Withdrawal(b);
    OptionsWithdrawalObeyedIff(m, a, Withdrawal(b));
  }

  /** How many of the withdrawals are read as `n` field definitions: one each, or two if the id has the bit of an
      enterprise number. */
  function Consumed(tids: seq<nat>, n: nat): (r: Option<nat>)
    ensures r.Some? ==> r.value <= |tids|
    decreases n
  {
    if n == 0 then Some(0)
    else if tids == [] then None
    else
      var k := if tids[0] < VENDOR_BIT then 1 else 2;
      if |tids| < k then None else
        var rest := Consumed(tids[k..], n - 1);
        if rest == None then None else Some(k + rest.value)
  }

  /** The withdrawals of options templates in one set that are obeyed. The first is, if another follows. The field count
      of that one and the id of a third are then read as a template of id 0 with so many fields, which the next
      withdrawals are taken for; behind these, or if that id is 0, it begins again. */
  function Obeyed(tids: seq<nat>): seq<nat>
    decreases |tids|
  {
    if |tids| <= 1 then []
    else if |tids| == 2 then [tids[0]]
    else
      var k := Consumed(tids[3..], tids[2]);
      [tids[0]] + if k == None then [] else Obeyed(tids[3 + k.value..])
  }

  lemma {:induction false} WithdrawalsFrom(tids: seq<nat>, k: nat)
    requires k <= |tids|
    ensures |Withdrawals(tids)| == 4 * |tids| && Withdrawals(tids)[4 * k..] == Withdrawals(tids[k..])
    decreases k
  {
    hide Withdrawal;
    WithdrawalsLength(tids);
    if k > 0 {
      WithdrawalsFrom(tids[1..], k - 1);
      assert Withdrawals(tids)[4..] == Withdrawals(tids[1..]);
      assert Withdrawals(tids)[4 * k..] == Withdrawals(tids)[4..][4 * (k - 1)..];
      assert tids[1..][k - 1..] == tids[k..];
    } else {
      assert tids[0..] == tids;
    }
  }

  /** A withdrawal read as a field definition, with the next one as its enterprise number. */
  lemma WithdrawalAsField(tids: seq<nat>)
    requires tids != [] && tids[0] < 0x1_0000
    ensures var f, k := ReadField(Withdrawals(tids)), if tids[0] < VENDOR_BIT then 1 else 2;
      if |tids| < k then f == None else f.Some? && f.value.1 == 4 * k
  {
    hide Withdrawal;
    WithdrawalsLength(tids);
    WithdrawalHead(tids[0], Withdrawals(tids[1..]));
  }

  lemma {:induction false} WithdrawalsAsFields(tids: seq<nat>, n: nat)
    requires forall t :: t in tids ==> t < 0x1_0000
    ensures var fs, k := ReadFields(Withdrawals(tids), n), Consumed(tids, n);
      if k == None then fs == None else fs.Some? && fs.value.1 == 4 * k.value
    decreases n
  {
    hide ReadField, Withdrawals;
    if n > 0 {
      if tids == [] {
        NoWithdrawals();
      } else {
        var k := if tids[0] < VENDOR_BIT then 1 else 2;
        assert tids[0] in tids;
        WithdrawalAsField(tids);
        if |tids| >= k {
          WithdrawalsFrom(tids, k);
          assert forall t :: t in tids[k..] ==> t in tids;
          WithdrawalsAsFields(tids[k..], n - 1);
        }
      }
    }
  }

  lemma NoWithdrawals()
    ensures Withdrawals([]) == [] && ReadField([]) == None
  {
  }

  /** The first six bytes of three withdrawals and more obey the first; then a template of id 0 is read. */
  lemma OptionsWithdrawalsStep(m: Table, a: nat, b: nat, c: nat, more: seq<nat>)
    requires a < 0x1_0000 && b < 0x1_0000 && c < 0x1_0000 && forall t :: t in more ==> t < 0x1_0000
    ensures var first, k := Withdrawn(m, SETID_OPTTEMPLATE, a), Consumed(more, c);
      var r := ReadTemplateSet(m, SETID_OPTTEMPLATE, Withdrawals([a, b, c] + more));
      if k == None then r == first - {0}
      else exists n: Table :: n - {0} == first - {0}
             && r == ReadTemplateSet(n, SETID_OPTTEMPLATE, Withdrawals(more[k.value..]))
  {
    hide Withdrawals, ReadFields, Withdrawn;
    var rest := Withdrawals(more);
    ManyWithdrawals(a, b, c, more);
    OptionsWithdrawalObeyedIff(m, a, Withdrawal(b) + (Withdrawal(c) + rest));
    TemplateOfZero(Withdrawn(m, SETID_OPTTEMPLATE, a), b, c, more);
  }

  lemma TemplateOfZero(m: Table, b: nat, c: nat, more: seq<nat>)
    requires b < 0x1_0000 && c < 0x1_0000 && forall t :: t in more ==> t < 0x1_0000
    ensures var k := Consumed(more, c);
      var r := ReadTemplateSet(m, SETID_OPTTEMPLATE, (Withdrawal(b) + (Withdrawal(c) + Withdrawals(more)))[2..]);
      if k == None then r == m - {0}
      else exists n: Table :: n - {0} == m - {0}
             && r == ReadTemplateSet(n, SETID_OPTTEMPLATE, Withdrawals(more[k.value..]))
  {
    hide Withdrawals, ReadFields;
    var rest, k := Withdrawals(more), Consumed(more, c);
    var s := (Withdrawal(b) + (Withdrawal(c) + rest))[2..];
    ThirdMisread(b, c, rest);
    WithdrawalsAsFields(more, c);
    var r := ReadTemplateRecord(SETID_OPTTEMPLATE, s);
    var n := Applied(m, r);
    assert n - {0} == m - {0};
    if k.Some? {
      WithdrawalsFrom(more, k.value);
      if c == 0 {
        assert s[r.used..] == rest == Withdrawals(more[0..]);
      } else {
        assert s[r.used..] == s[6..][4 * k.value..];
      }
    }
  }

  lemma {:induction false} ZeroAside(m: Table, n: Table, tids: seq<nat>)
    requires m - {0} == n - {0}
    ensures AllWithdrawn(m, SETID_OPTTEMPLATE, tids) - {0} == AllWithdrawn(n, SETID_OPTTEMPLATE, tids) - {0}
    decreases |tids|
  {
    if tids != [] {
      var t := tids[0];
      assert m - {t} - {0} == m - {0} - {t} && n - {t} - {0} == n - {0} - {t};
      ZeroAside(Withdrawn(m, SETID_OPTTEMPLATE, t), Withdrawn(n, SETID_OPTTEMPLATE, t), tids[1..]);
    }
  }

  /** For every list of withdrawals of options templates in one set: apart from an entry for id 0, exactly those of
      `Obeyed` are obeyed. */
  lemma {:induction false} OptionsWithdrawalsObeyed(m: Table, tids: seq<nat>)
    requires forall t :: t in tids ==> t < 0x1_0000
    ensures ReadTemplateSet(m, SETID_OPTTEMPLATE, Withdrawals(tids)) - {0}
      == AllWithdrawn(m, SETID_OPTTEMPLATE, Obeyed(tids)) - {0}
    decreases |tids|
  {
    hide ReadTemplateSet, Withdrawn, Withdrawals, Consumed;
    WithdrawalsLength(tids);
    assert forall i :: 0 <= i < |tids| ==> tids[i] in tids;
    if |tids| <= 1 {
      ShortSet(m, Withdrawals(tids));
    } else if |tids| == 2 {
      assert tids == [tids[0], tids[1]] && [tids[0]][1..] == [];
      OnlyFirstOfTwoObeyed(m, tids[0], tids[1]);
    } else {
      var a, b, c, more := tids[0], tids[1], tids[2], tids[3..];
      assert tids == [a, b, c] + more;
      OptionsWithdrawalsStep(m, a, b, c, more);
      var first, k := Withdrawn(m, SETID_OPTTEMPLATE, a), Consumed(more, c);
      if k == None {
        assert [a] + [] == [a] && [a][1..] == [];
      } else {
        var n: Table :| n - {0} == first - {0}
          && ReadTemplateSet(m, SETID_OPTTEMPLATE, Withdrawals(tids))
             == ReadTemplateSet(n, SETID_OPTTEMPLATE, Withdrawals(more[k.value..]));
        assert more[k.value..] == tids[3 + k.value..];
        OptionsWithdrawalsObeyed(n, tids[3 + k.value..]);
        ZeroAside(n, first, Obeyed(tids[3 + k.value..]));
        assert ([a] + Obeyed(tids[3 + k.value..]))[1..] == Obeyed(tids[3 + k.value..]);
      }
    }
  }

  lemma ShortSet(m: Table, s: bytes)
    requires |s| <= 4
    ensures ReadTemplateSet(m, SETID_OPTTEMPLATE, s) == m
  {
  }

  lemma ManyWithdrawals(a: nat, b: nat, c: nat, more: seq<nat>)
    ensures Withdrawals([a, b, c] + more) == Withdrawal(a) + (Withdrawal(b) + (Withdrawal(c) + Withdrawals(more)))
  {
    hide Withdrawal;
    var all, two, one := [a, b, c] + more, [b, c] + more, [c] + more;
    assert all[1..] == two && two[1..] == one && one[1..] == more;
    assert Withdrawals(one) == Withdrawal(c) + Withdrawals(more);
    assert Withdrawals(two) == Withdrawal(b) + Withdrawals(one);
  }

  /** Behind the first six bytes: the id 0, the third id as a number of fields, and no scope fields. */
  lemma ThirdMisread(b: nat, c: nat, rest: bytes)
    requires b < 0x1_0000 && c < 0x1_0000
    ensures var s := (Withdrawal(b) + (Withdrawal(c) + rest))[2..];
      |s| == 6 + |rest| && Read16(s, 0) == 0 && Read16(s, 2) == c && s[6..] == rest
  {
    var x := Withdrawal(c) + rest;
    Associative(U16(b), U16(0), x);
    Associative(U16(c), U16(0), rest);
    var s := (Withdrawal(b) + x)[2..];
    assert s == U16(0) + (U16(c) + (U16(0) + rest));
    ReadTwo(0, c, U16(0) + rest);
    assert s[6..] == s[4..][2..];
  }

  // ---------------------------------------------------------------- records that look like padding

  lemma {:induction false} RecordsBytesOfLast(info: Info, t: Template, records: seq<seq<bytes>>)
    requires records != []
    ensures |RecordsBytes(info, t, records)| >= |RecordBytes(info, t.fields, records[|records| - 1])|
  {
    hide RecordBytes;
    if |records| > 1 {
      RecordsBytesOfLast(info, t, records[1..]);
    }
  }

  lemma ReadFittingBack(info: Info, t: Template, vals: seq<bytes>, left: int, more: bytes)
    requires AllFit(info, t.fields, vals) && left >= |RecordBytes(info, t.fields, vals)|
    ensures var image := RecordImage(t.fields, vals);
      && ReadRecord(info, t.fields, RecordBytes(info, t.fields, vals) + more, left) == RecordRead(vals, image)
      && |image| == |RecordBytes(info, t.fields, vals)|
  {
    hide Fits, RecordBytes, ReadRecord, RecordImage;
    AllFitIsFitAll(info, t.fields, vals);
    ValuesAreInRecord(info, t.fields, vals);
    ReadRecordBack(info, t.fields, vals, left, more);
  }

  lemma Padding(info: Info, t: Template, last: bytes, s: bytes, left: nat)
    requires left <= 4 && left <= |s|
    ensures ReadDataSet(info, t, last, s, left) == SetRead([], s[left..], Fine)
  {
  }

  /** For records of a template whose records are not empty, all are read exactly when the last one is longer than
      four bytes: shorter records before it are read too. */
  lemma {:induction false} AllRecordsReadIff(info: Info, t: Template, last: bytes, records: seq<seq<bytes>>, more: bytes)
    requires records != [] && forall r :: r in records ==> AllFit(info, t.fields, r) && RecordBytes(info, t.fields, r) != []
    ensures var s := RecordsBytes(info, t, records);
      ReadDataSet(info, t, last, s + more, |s|).records == Data(t.tid, records)
      <==> |RecordBytes(info, t.fields, records[|records| - 1])| > 4
    decreases |records|
  {
    hide AllFit, ReadRecord, RecordBytes, RecordImage, ReadDataSet;
    var e, rest := RecordBytes(info, t.fields, records[0]), RecordsBytes(info, t, records[1..]);
    var s := e + rest;
    assert RecordsBytes(info, t, records) == s;
    RecordsBytesOfLast(info, t, records);
    if |s| <= 4 {
      Padding(info, t, last, s + more, |s|);
    } else {
      ReadFittingBack(info, t, records[0], |s|, rest + more);
      var image := RecordImage(t.fields, records[0]);
      ReadDataStep(info, t, last, e, records[0], image, rest + more, |s|);
      Associative(e, rest, more);
      if |records| == 1 {
        assert records[1..] == [] && rest == [];
        Padding(info, t, image, rest + more, 0);
      } else {
        AllRecordsReadIff(info, t, image, records[1..], more);
        TailsEqualIff(Datum(t.tid, records[0]), ReadDataSet(info, t, image, rest + more, |rest|).records,
                      Data(t.tid, records[1..]));
      }
    }
  }

  lemma TailsEqualIff(d: Datum, a: seq<Datum>, b: seq<Datum>)
    ensures [d] + a == [d] + b <==> a == b
  {
    assert ([d] + a)[1..] == a && ([d] + b)[1..] == b;
  }

  // ---------------------------------------------------------------- values shorter than their fields

  /** Every value of fixed length fills its field. */
  predicate Fills(fields: seq<Field>, vals: seq<bytes>) {
    |vals| == |fields| && forall i :: 0 <= i < |vals| ==> fields[i].flength == VARLEN || |vals[i]| == fields[i].flength
  }

  lemma ValueLength(info: Info, f: Field, s: bytes, left: int)
    ensures var r := ReadValue(info, f, s, left); r.ValueRead? ==> f.flength == VARLEN || |r.v| == f.flength
  {
    hide Coded;
  }

  lemma FillsMore(fields: seq<Field>, v: bytes, vals: seq<bytes>)
    requires fields != [] && (fields[0].flength == VARLEN || |v| == fields[0].flength) && Fills(fields[1..], vals)
    ensures Fills(fields, [v] + vals)
  {
    var all := [v] + vals;
    forall i | 0 <= i < |all| ensures fields[i].flength == VARLEN || |all[i]| == fields[i].flength {
      assert i > 0 ==> all[i] == vals[i - 1] && fields[i] == fields[1..][i - 1];
    }
  }

  /** A collector takes as many bytes for a field of fixed length as the template says. */
  lemma {:induction false} ReadLengths(info: Info, fields: seq<Field>, s: bytes, left: int)
    ensures var r := ReadRecord(info, fields, s, left); r.RecordRead? ==> Fills(fields, r.vals)
    decreases |fields|
  {
    hide ReadValue;
    if fields != [] {
      hide Fills;
      var r := ReadValue(info, fields[0], s, left);
      ValueLength(info, fields[0], s, left);
      if r.ValueRead? {
        var rest := ReadRecord(info, fields[1..], s[|r.image|..], left - |r.v|);
        ReadLengths(info, fields[1..], s[|r.image|..], left - |r.v|);
        if rest.RecordRead? {
          FillsMore(fields, r.v, rest.vals);
        }
      }
    }
  }

  /** The exporter writes a value that is shorter than its field without filling up. A record of numbers of supported
      lengths is read back exactly if there is no such value. */
  lemma ReadBackIff(info: Info, t: Template, vals: seq<bytes>, more: bytes)
    requires |vals| == |t.fields|
    requires forall i :: 0 <= i < |vals| ==>
      |vals[i]| < 0x1_0000 && Supported(info(t.fields[i].eno, t.fields[i].ftype), |vals[i]|)
    ensures var s := RecordBytes(info, t.fields, vals);
      var r := ReadRecord(info, t.fields, s + more, |s|);
      (r.RecordRead? && r.vals == vals) <==> Fills(t.fields, vals)
  {
    hide RecordBytes, ReadRecord, RecordImage, Supported;
    var s := RecordBytes(info, t.fields, vals);
    ReadLengths(info, t.fields, s + more, |s|);
    if Fills(t.fields, vals) {
      ReadFittingBack(info, t, vals, |s|, more);
    }
  }

  // ---------------------------------------------------------------- reading that does not end

  lemma EmptyValueIff(info: Info, f: Field, s: bytes, left: int)
    requires left >= 0
    ensures var r := ReadValue(info, f, s, left);
      && (r.ValueRead? && r.image == [] <==> f.flength == 0)
      && (r.ValueRead? && r.image == [] ==> r.v == [])
  {
    hide Coded;
  }

  lemma {:induction false} EmptyImageIff(info: Info, fields: seq<Field>, s: bytes, left: int)
    requires left >= 0
    ensures ReadRecord(info, fields, s, left).RecordRead? && ReadRecord(info, fields, s, left).image == []
      <==> forall f :: f in fields ==> f.flength == 0
    decreases |fields|
  {
    hide ReadValue;
    if fields != [] {
      var r := ReadValue(info, fields[0], s, left);
      EmptyValueIff(info, fields[0], s, left);
      assert fields == [fields[0]] + fields[1..];
      if r.ValueRead? && r.image == [] {
        assert s[0..] == s;
        EmptyImageIff(info, fields[1..], s, left);
      }
    }
  }

  /** Reading a set does not end exactly when there is more than padding in it and all fields have no length. */
  lemma {:induction false} EndlessIff(info: Info, t: Template, last: bytes, s: bytes, left: int)
    requires -|last| <= left <= |s|
    ensures ReadDataSet(info, t, last, s, left).end == Endless <==>
      left > 4 && forall f :: f in t.fields ==> f.flength == 0
    decreases |s|
  {
    hide ReadRecord;
    if left > 4 {
      EmptyImageIff(info, t.fields, s, left);
      var r := ReadRecord(info, t.fields, s, left);
      if r.RecordRead? && r.image != [] {
        EndlessIff(info, t, r.image, s[|r.image|..], left - |r.image|);
      }
    }
  }

  // ---------------------------------------------------------------- records that reach past their set

  /** No field has a variable length. */
  predicate FixedOnly(fields: seq<Field>) {
    forall f :: f in fields ==> f.flength != VARLEN
  }

  /** Every record that is read lies in its set. */
  ghost predicate StaysInside(info: Info, fields: seq<Field>) {
    forall s: bytes, left: nat :: 4 < left <= |s| && ReadRecord(info, fields, s, left).RecordRead?
      ==> |ReadRecord(info, fields, s, left).image| <= left
  }

  /** No read goes beyond the message. */
  ghost predicate NeverBeyond(info: Info, fields: seq<Field>) {
    forall s: bytes, left: nat :: 4 < left <= |s| ==> !ReadRecord(info, fields, s, left).Overrun?
  }

  lemma {:induction false} FixedRecordStays(info: Info, fields: seq<Field>, s: bytes, left: nat)
    requires FixedOnly(fields) && left <= |s|
    ensures var r := ReadRecord(info, fields, s, left); !r.Overrun? && (r.RecordRead? ==> |r.image| <= left)
    decreases |fields|
  {
    hide Coded;
    if fields != [] {
      var r := ReadValue(info, fields[0], s, left);
      assert fields[0] in fields;
      if r.ValueRead? {
        FixedRecordStays(info, fields[1..], s[|r.image|..], left - |r.v|);
      }
    }
  }

  function Zeros(n: nat): (s: bytes)
    ensures |s| == n && forall i :: 0 <= i < n ==> s[i] == 0
  {
    seq(n, i => 0)
  }

  /** What the fields take when every variable length is zero, without and with the bytes for those lengths. */
  function FixedBytes(fields: seq<Field>): nat {
    if fields == [] then 0 else (if fields[0].flength == VARLEN then 0 else fields[0].flength) + FixedBytes(fields[1..])
  }

  function ZeroBytes(fields: seq<Field>): nat {
    if fields == [] then 0 else (if fields[0].flength == VARLEN then 1 else fields[0].flength) + ZeroBytes(fields[1..])
  }

  lemma ZeroValue(info: Info, f: Field, n: nat, left: nat)
    requires n >= (if f.flength == VARLEN then 1 else f.flength) && left >= (if f.flength == VARLEN then 0 else f.flength)
    ensures var r := ReadValue(info, f, Zeros(n), left);
      && r.ValueRead?
      && |r.image| == (if f.flength == VARLEN then 1 else f.flength)
      && |r.v| == (if f.flength == VARLEN then 0 else f.flength)
  {
    hide Coded;
  }

  lemma {:induction false} ZerosRead(info: Info, fields: seq<Field>, n: nat)
    requires n >= ZeroBytes(fields)
    ensures var r := ReadRecord(info, fields, Zeros(n), FixedBytes(fields));
      r.RecordRead? && |r.image| == ZeroBytes(fields) >= FixedBytes(fields)
    decreases |fields|
  {
    hide ReadValue, ReadRecord;
    if fields == [] {
      ReadNoFields(info, Zeros(n), 0);
    } else {
      var left := FixedBytes(fields);
      var r := ReadValue(info, fields[0], Zeros(n), left);
      ZeroValue(info, fields[0], n, left);
      assert Zeros(n)[|r.image|..] == Zeros(n - |r.image|);
      ReadRecordStep(info, fields, Zeros(n), left, r.v, r.image);
      ZerosRead(info, fields[1..], n - |r.image|);
    }
  }

  /** The fields from the first variable-length one on. */
  function FromVarlen(fields: seq<Field>): (r: seq<Field>)
    requires !FixedOnly(fields)
    ensures r != [] && r[0].flength == VARLEN
  {
    if fields[0].flength == VARLEN then fields else FromVarlen(fields[1..])
  }

  /** The fixed fields before it. */
  function Leading(fields: seq<Field>): nat
    requires !FixedOnly(fields)
  {
    if fields[0].flength == VARLEN then 0 else fields[0].flength + Leading(fields[1..])
  }

  lemma {:induction false} LeadingRead(info: Info, fields: seq<Field>, tail: bytes, left: nat)
    requires !FixedOnly(fields)
    ensures var r, q := ReadRecord(info, fields, Zeros(Leading(fields)) + tail, Leading(fields) + left),
                        ReadRecord(info, FromVarlen(fields), tail, left);
      && (q.RecordRead? ==> r.RecordRead? && |r.image| == Leading(fields) + |q.image|)
      && (q.Overrun? ==> r.Overrun?)
    decreases |fields|
  {
    hide Coded, ReadRecord;
    var k := Leading(fields);
    if fields[0].flength == VARLEN {
      assert Zeros(0) + tail == tail;
    } else {
      var f := fields[0].flength;
      var s := Zeros(k) + tail;
      var r := ReadValue(info, fields[0], s, k + left);
      assert s[f..] == Zeros(k - f) + tail;
      LeadingRead(info, fields[1..], tail, left);
      ReadRecordStep(info, fields, s, k + left, r.v, r.image);
    }
  }

  /** A value of five bytes in the first variable-length field and none in the others: its length byte, which is not
      taken off what is left of the set, lets the record end behind the set. */
  lemma VarlenReachesOut(info: Info, fields: seq<Field>) returns (s: bytes, left: nat)
    requires !FixedOnly(fields)
    ensures 4 < left <= |s|
    ensures var r := ReadRecord(info, fields, s, left); r.RecordRead? && |r.image| > left
  {
    hide Coded, ReadRecord;
    var fs := FromVarlen(fields);
    var need := ZeroBytes(fs[1..]);
    var tail: bytes := [5] + Zeros(5 + need);
    ZerosRead(info, fs[1..], need);
    var l := 5 + FixedBytes(fs[1..]);
    assert tail[6..] == Zeros(need);
    var v := ReadValue(info, fs[0], tail, l);
    ReadRecordStep(info, fs, tail, l, v.v, v.image);
    LeadingRead(info, fields, tail, l);
    s, left := Zeros(Leading(fields)) + tail, Leading(fields) + l;
  }

  /** At the end of a message, the same value lies one byte beyond it. */
  lemma VarlenReadsBeyond(info: Info, fields: seq<Field>) returns (s: bytes, left: nat)
    requires !FixedOnly(fields)
    ensures 4 < left <= |s| && ReadRecord(info, fields, s, left).Overrun?
  {
    hide Coded;
    var fs := FromVarlen(fields);
    var tail: bytes := [5] + Zeros(4);
    assert ReadValue(info, fs[0], tail, 5) == ValueOverrun;
    LeadingRead(info, fields, tail, 5);
    s, left := Zeros(Leading(fields)) + tail, Leading(fields) + 5;
  }

  /** Records stay in their sets, for all messages, exactly when the template has no variable-length field. */
  lemma StaysInsideIff(info: Info, fields: seq<Field>)
    ensures StaysInside(info, fields) <==> FixedOnly(fields)
  {
    hide ReadRecord, FixedOnly;
    if FixedOnly(fields) {
      forall s: bytes, left: nat | 4 < left <= |s| && ReadRecord(info, fields, s, left).RecordRead?
        ensures |ReadRecord(info, fields, s, left).image| <= left
      {
        FixedRecordStays(info, fields, s, left);
      }
    } else {
      var s, left := VarlenReachesOut(info, fields);
      assert ReadRecord(info, fields, s, left).RecordRead?;
    }
  }

  /** No read goes beyond the message, for all messages, exactly when the template has no variable-length field. */
  lemma NeverBeyondIff(info: Info, fields: seq<Field>)
    ensures NeverBeyond(info, fields) <==> FixedOnly(fields)
  {
    hide ReadRecord, FixedOnly;
    if FixedOnly(fields) {
      forall s: bytes, left: nat | 4 < left <= |s|
        ensures !ReadRecord(info, fields, s, left).Overrun?
      {
        FixedRecordStays(info, fields, s, left);
      }
    } else {
      var s, left := VarlenReadsBeyond(info, fields);
      assert ReadRecord(info, fields, s, left).Overrun?;
    }
  }

  /** With fixed lengths only, a whole set is read within it, and what follows it is left as it was. */
  lemma {:induction false} FixedSetStays(info: Info, t: Template, last: bytes, s: bytes, left: nat)
    requires FixedOnly(t.fields) && left <= |s|
    ensures var d := ReadDataSet(info, t, last, s, left);
      d.end != Beyond && (d.end == Fine ==> d.after == s[left..])
    decreases |s|
  {
    hide ReadRecord, FixedOnly;
    if left > 4 {
      FixedRecordStays(info, t.fields, s, left);
      var r := ReadRecord(info, t.fields, s, left);
      if r.RecordRead? && r.image != [] {
        var k := |r.image|;
        FixedSetStays(info, t, r.image, s[k..], left - k);
        assert s[k..][left - k..] == s[left..];
      }
    }
  }
}
