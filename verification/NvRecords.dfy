/**
 The 6316 image told by its tags and values: which file holds which records, and what of them is sent.
 */
module NvRecords {
  import opened Bytes
  import opened NvImage
  import opened ConfigMachine

  /** A record: its tag, the byte behind the tag, and its value. */
  datatype Tlv = Tlv(tag: byte, extra: byte, value: bytes)

  function Encode(r: Tlv): bytes
    requires |r.value| < 256
  {
    [r.tag, r.extra, |r.value|] + r.value
  }

  /** Every value fits a block with its header. */
  ghost predicate Fit(rs: seq<Tlv>) {
    forall i :: 0 <= i < |rs| ==> |rs[i].value| <= 249
  }

  function EncodeAll(rs: seq<Tlv>): seq<bytes>
    requires Fit(rs)
  {
    seq(|rs|, i requires 0 <= i < |rs| => Encode(rs[i]))
  }

  /** A file: a header, the records, and under three bytes that make no further record. */
  predicate IsImage(file: bytes, header: bytes, rs: seq<Tlv>, tail: bytes)
    requires Fit(rs)
  {
    file == header + Concat(EncodeAll(rs)) + tail && |tail| < 3
  }

  lemma FirstEncoded(file: bytes, front: bytes, rs: seq<Tlv>, tail: bytes)
    requires Fit(rs) && rs != [] && IsImage(file, front, rs, tail)
    ensures Fit(rs[1..]) && IsImage(file, front + Encode(rs[0]), rs[1..], tail)
    ensures EncodeAll(rs) == [Encode(rs[0])] + EncodeAll(rs[1..])
  {
    var e := Encode(rs[0]);
    assert EncodeAll(rs)[1..] == EncodeAll(rs[1..]);
    Assoc(front, e, Concat(EncodeAll(rs[1..])));
  }

  /** The record that stands at the end of front. */
  lemma RecordStands(file: bytes, front: bytes, r: Tlv, rest: bytes)
    requires |r.value| <= 249 && file == front + Encode(r) + rest
    ensures HasRecord(file, |front|) && RecordLength(file, |front|) == 3 + |r.value| <= BLOCK_SIZE
    ensures RecordAt(file, |front|) == Encode(r)
  {
    assert file[|front| + 2] == Encode(r)[2];
  }

  /** From cur on the file holds exactly these records, and can be uploaded. */
  predicate Holds(file: bytes, cur: nat, es: seq<bytes>) {
    Records(file, cur) == es && Uploadable(file, cur)
  }

  lemma HoldsOneMore(file: bytes, cur: nat, e: bytes, es: seq<bytes>)
    requires HasRecord(file, cur) && RecordAt(file, cur) == e && RecordLength(file, cur) <= BLOCK_SIZE
    ensures Holds(file, cur + |e|, es) ==> Holds(file, cur, [e] + es)
  {
  }

  /** The records found in a file are the ones it was made of, and it can be uploaded. */
  lemma {:induction false} RecordsOfImage(file: bytes, front: bytes, rs: seq<Tlv>, tail: bytes)
    requires Fit(rs) && IsImage(file, front, rs, tail)
    ensures Holds(file, |front|, EncodeAll(rs))
    decreases |rs|
  {
    if rs == [] {
      assert Concat(EncodeAll(rs)) == [];
    } else {
      var e, rest := Encode(rs[0]), Concat(EncodeAll(rs[1..])) + tail;
      FirstEncoded(file, front, rs, tail);
      assert file == front + e + rest;
      RecordStands(file, front, rs[0], rest);
      RecordsOfImage(file, front + e, rs[1..], tail);
      HoldsOneMore(file, |front|, e, EncodeAll(rs[1..]));
    }
  }

  /** A file that can be uploaded is made of records in one way. */
  lemma {:induction false} ImageOfRecords(file: bytes, cur: nat) returns (rs: seq<Tlv>, tail: bytes)
    requires cur <= |file| && Uploadable(file, cur)
    ensures Fit(rs) && IsImage(file, file[..cur], rs, tail)
    decreases |file| - cur
  {
    if |file| < cur + 3 {
      rs, tail := [], file[cur..];
      assert Concat(EncodeAll(rs)) == [];
      assert file == file[..cur] + [] + file[cur..];
    } else {
      var n := RecordLength(file, cur);
      var more;
      more, tail := ImageOfRecords(file, cur + n);
      var r := Tlv(file[cur], file[cur + 1], file[cur + 3..cur + n]);
      rs := [r] + more;
      assert EncodeAll(rs)[1..] == EncodeAll(more);
      assert file[cur..cur + n] == Encode(r);
      assert file[..cur + n] == file[..cur] + Encode(r);
      Assoc(file[..cur], Encode(r), Concat(EncodeAll(more)));
    }
  }

  /** Exactly which files can be uploaded: those made of complete records with at most 249 value bytes,
      and under three bytes more. */
  lemma UploadableExactly(file: bytes, cur: nat)
    requires cur <= |file|
    ensures Uploadable(file, cur) <==>
            exists rs: seq<Tlv>, tail: bytes {:trigger IsImage(file, file[..cur], rs, tail)} ::
              Fit(rs) && IsImage(file, file[..cur], rs, tail)
  {
    if Uploadable(file, cur) {
      var rs, tail := ImageOfRecords(file, cur);
    } else if exists rs: seq<Tlv>, tail: bytes {:trigger IsImage(file, file[..cur], rs, tail)} ::
                Fit(rs) && IsImage(file, file[..cur], rs, tail) {
      var rs: seq<Tlv>, tail: bytes :| Fit(rs) && IsImage(file, file[..cur], rs, tail);
      RecordsOfImage(file, file[..cur], rs, tail);
    }
  }

  // ----- what is sent -----

  /** The value as it is meant to be sent: bytes 3 to 5 of an address replaced, those it has. */
  predicate MeantValue(tag: byte, v: bytes, lap: Lap, w: bytes) {
    && |w| == |v|
    && forall i :: 0 <= i < |v| ==>
        w[i] == if tag == 1 && lap.valid && i == 3 then lap.b0
                else if tag == 1 && lap.valid && i == 4 then lap.b1
                else if tag == 1 && lap.valid && i == 5 then lap.b2
                else v[i]
  }

  /** The same records with the values that are meant to be sent. */
  ghost predicate Meant(rs: seq<Tlv>, lap: Lap, ws: seq<Tlv>) {
    && |ws| == |rs|
    && forall i :: 0 <= i < |rs| ==>
        ws[i].tag == rs[i].tag && ws[i].extra == rs[i].extra && MeantValue(rs[i].tag, rs[i].value, lap, ws[i].value)
  }

  lemma PatchedIsMeant(r: Tlv, lap: Lap) returns (w: Tlv)
    requires |r.value| <= 249
    ensures w.tag == r.tag && w.extra == r.extra && MeantValue(r.tag, r.value, lap, w.value)
    ensures PatchRecord(Encode(r), lap) == Encode(w)
  {
    var p := PatchRecord(Encode(r), lap);
    PutLapBytes(Encode(r), 6, lap);
    w := Tlv(r.tag, r.extra, p[3..]);
    assert p == [r.tag, r.extra, |r.value|] + p[3..];
  }

  lemma {:induction false} PatchedAreMeant(rs: seq<Tlv>, lap: Lap) returns (ws: seq<Tlv>)
    requires Fit(rs)
    ensures Meant(rs, lap, ws) && Fit(ws)
    ensures PatchAll(EncodeAll(rs), lap) == EncodeAll(ws)
  {
    if rs == [] {
      ws := [];
    } else {
      var w := PatchedIsMeant(rs[0], lap);
      var more := PatchedAreMeant(rs[1..], lap);
      ws := [w] + more;
      forall i | 0 <= i < |rs|
        ensures ws[i].tag == rs[i].tag && ws[i].extra == rs[i].extra
                && MeantValue(rs[i].tag, rs[i].value, lap, ws[i].value)
        ensures PatchAll(EncodeAll(rs), lap)[i] == EncodeAll(ws)[i]
      {
        if i > 0 {
          assert rs[i] == rs[1..][i - 1] && ws[i] == more[i - 1];
          assert PatchAll(EncodeAll(rs[1..]), lap)[i - 1] == EncodeAll(more)[i - 1];
        }
      }
    }
  }

  /** For a file of four header bytes, records and under three bytes more, the blocks of the upload end to
      end are the records with the values meant: none is missing, split or out of order. */
  lemma UploadSendsRecords(file: bytes, h: bytes, rs: seq<Tlv>, tail: bytes, lap: Lap) returns (ws: seq<Tlv>)
    requires |h| == 4 && Fit(rs) && IsImage(file, h, rs, tail)
    ensures HeaderEnd(file, 0x5301) == 4 && Meant(rs, lap, ws) && Fit(ws)
    ensures Concat(Blocks6316(file, 4, lap)) == Concat(EncodeAll(ws))
    ensures forall b :: b in Blocks6316(file, 4, lap) ==> |b| <= 252
  {
    RecordsOfImage(file, h, rs, tail);
    Upload6316PreservesImage(file, 4, lap);
    ws := PatchedAreMeant(rs, lap);
    BlocksAtMost(file, 4, lap);
  }

  lemma {:induction false} BlocksAtMost(file: bytes, cur: nat, lap: Lap)
    requires cur <= |file|
    ensures forall b :: b in Blocks6316(file, cur, lap) ==> |b| <= 252
    decreases |file| - cur
  {
    var p := Pack(file, cur, 0, lap);
    if p.params != [] && !p.end && !p.truncated {
      BlocksAtMost(file, p.cur, lap);
    }
  }

  // ----- what stops an upload -----

  /** A record at the front of a block whose value is cut off by the end of the file: its three header
      bytes are packed, and the upload breaks off. */
  lemma BrokenRecord(file: bytes, front: bytes, tag: byte, extra: byte, n: byte, v: bytes, lap: Lap)
    requires file == front + ([tag, extra, n] + v) && |v| < n <= 249
    ensures Pack(file, |front|, 0, lap) == Packed([tag, extra, n], |file|, false, true)
  {
    assert file[|front| + 2] == n;
    assert file[|front|..|front| + 3] == [tag, extra, n];
  }

  /** A record with more than 249 value bytes: nothing is packed, and the cursor is back before it. */
  lemma OversizedRecord(file: bytes, front: bytes, tag: byte, extra: byte, n: byte, v: bytes, lap: Lap)
    requires file == front + ([tag, extra, n] + v) && n > 249
    ensures Pack(file, |front|, 0, lap) == Packed([], |front|, false, false)
  {
    assert file[|front| + 2] == n;
  }
}
