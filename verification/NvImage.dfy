/**
 The two ways an NV image is cut into the parameter blocks of the upload command: greedy packing of
 tag-length-value records (6316) and fixed blocks of 252 bytes (6160), both with address bytes
 patched in on the way.
 */
module NvImage {
  import opened Bytes

  const BLOCK_SIZE: nat := 252
  const TAG_BD_ADDR: byte := 1

  // What skw_addr_get writes, if the address is valid.
  datatype Lap = Lap(valid: bool, b0: byte, b1: byte, b2: byte)
  {
    function At(i: nat): byte {
      if i == 0 then b0 else if i == 1 then b1 else b2
    }
  }

  // ----- records -----

  /** Header and value: what the length byte of the record at cur asks for. */
  function RecordLength(file: bytes, cur: nat): (n: nat)
    requires cur + 3 <= |file|
    ensures 3 <= n < 3 + 256
  {
    var n: nat := file[cur + 2];
    3 + n
  }

  /** A whole record stands at cur: tag, a byte, the value's length, the value. */
  predicate HasRecord(file: bytes, cur: nat) {
    cur + 3 <= |file| && cur + RecordLength(file, cur) <= |file|
  }

  function RecordAt(file: bytes, cur: nat): (r: bytes)
    requires HasRecord(file, cur)
    ensures |r| == RecordLength(file, cur)
  {
    file[cur..cur + RecordLength(file, cur)]
  }

  /** The whole records from cur on, in order. */
  function Records(file: bytes, cur: nat): seq<bytes>
    decreases |file| - cur
  {
    if HasRecord(file, cur) then [RecordAt(file, cur)] + Records(file, cur + RecordLength(file, cur)) else []
  }

  /** Every record from cur on is complete and fits a block; under three bytes may be left at the end. */
  predicate Uploadable(file: bytes, cur: nat)
    decreases |file| - cur
  {
    |file| < cur + 3 ||
    (HasRecord(file, cur) && RecordLength(file, cur) <= BLOCK_SIZE
     && Uploadable(file, cur + RecordLength(file, cur)))
  }

  /** A byte written where there is one. */
  function Put(s: bytes, i: nat, b: byte): (p: bytes)
    ensures |p| == |s|
  {
    if i < |s| then s[i := b] else s
  }

  /** The LAP written at offset at, as far as there are bytes. */
  function PutLap(s: bytes, at: nat, lap: Lap): (p: bytes)
    ensures |p| == |s|
  {
    if lap.valid then Put(Put(Put(s, at, lap.b0), at + 1, lap.b1), at + 2, lap.b2) else s
  }

  lemma PutLapBytes(s: bytes, at: nat, lap: Lap)
    ensures forall k :: 0 <= k < |s| ==>
                          PutLap(s, at, lap)[k] == if lap.valid && at <= k < at + 3 then lap.At(k - at) else s[k]
  {
  }

  /** The record as it is sent: bytes 3 to 5 of an address record's value replaced, those it has. */
  function PatchRecord(r: bytes, lap: Lap): (p: bytes)
    ensures |p| == |r|
  {
    if r != [] && r[0] == TAG_BD_ADDR then PutLap(r, 6, lap) else r
  }

  function PatchAll(rs: seq<bytes>, lap: Lap): seq<bytes> {
    seq(|rs|, i requires 0 <= i < |rs| => PatchRecord(rs[i], lap))
  }

  // ----- packing one block -----

  /** One iteration of the packing loop at cur, with total bytes already in the block: the bytes it
      adds, where it leaves the cursor, and whether and how the loop ends. A record that does not fit
      is left for the next block; of a truncated one only the header is packed. */
  datatype Packing = Packing(added: bytes, cur: nat, more: bool, end: bool, truncated: bool)

  function PackStep(file: bytes, cur: nat, total: nat, lap: Lap): (k: Packing)
    requires cur <= |file| && total <= BLOCK_SIZE
    ensures cur <= k.cur <= |file| && (k.more ==> cur < k.cur) && total + |k.added| <= BLOCK_SIZE
    ensures k.added != [] ==> cur < k.cur
  {
    if |file| < cur + 3 then Packing([], |file|, false, true, false)
    else if RecordLength(file, cur) + total > BLOCK_SIZE then Packing([], cur, false, false, false)
    else if !HasRecord(file, cur) then Packing(file[cur..cur + 3], |file|, false, false, true)
    else Packing(PatchRecord(RecordAt(file, cur), lap), cur + RecordLength(file, cur), true, false, false)
  }

  /** What a block holds, where it leaves the cursor, whether the file ended, and whether it ended
      inside a record. */
  datatype Packed = Packed(params: bytes, cur: nat, end: bool, truncated: bool)

  /** The packing loop. */
  function Pack(file: bytes, cur: nat, total: nat, lap: Lap): (p: Packed)
    requires cur <= |file| && total <= BLOCK_SIZE
    ensures cur <= p.cur <= |file| && total + |p.params| <= BLOCK_SIZE
    ensures p.params != [] ==> cur < p.cur
    decreases |file| - cur
  {
    var k := PackStep(file, cur, total, lap);
    if k.more then Behind(k.added, Pack(file, k.cur, total + |k.added|, lap))
    else Packed(k.added, k.cur, k.end, k.truncated)
  }

  function Behind(a: bytes, p: Packed): Packed {
    p.(params := a + p.params)
  }

  /** A block that holds done, with the cursor at cur, is on the way to the packed block. */
  predicate OnTheWay(all: Packed, file: bytes, cur: nat, lap: Lap, done: bytes) {
    |done| <= BLOCK_SIZE && cur <= |file| && all == Behind(done, Pack(file, cur, |done|, lap))
  }

  lemma StepOnTheWay(all: Packed, file: bytes, cur: nat, lap: Lap, done: bytes, k: Packing)
    requires OnTheWay(all, file, cur, lap, done) && k == PackStep(file, cur, |done|, lap)
    ensures k.more ==> OnTheWay(all, file, k.cur, lap, done + k.added)
    ensures !k.more ==> all == Packed(done + k.added, k.cur, k.end, k.truncated)
  {
    assert |done + k.added| == |done| + |k.added|;
    BehindTwice(done, k.added, Pack(file, k.cur, |done| + |k.added|, lap));
  }

  lemma BehindTwice(a: bytes, b: bytes, p: Packed)
    ensures Behind(a, Behind(b, p)) == Behind(a + b, p)
  {
    Assoc(a, b, p.params);
  }

  /** The packing loop itself, into a staging buffer. The header is copied before the fit test and
      the address is patched in even where the value is shorter; what lies past total is never used. */
  method PackBlock(file: bytes, start: nat, lap: Lap, param: array<byte>)
    returns (total: nat, cur: nat, end: bool, truncated: bool)
    requires param.Length >= 258 && start <= |file|
    modifies param
    ensures total <= BLOCK_SIZE
    ensures Packed(param[..total], cur, end, truncated) == Pack(file, start, 0, lap)
  {
    total, cur, end, truncated := 0, start, false, false;
    var more := true;
    ghost var all := Pack(file, start, 0, lap);
    assert param[..0] == [];
    while more
      invariant total <= BLOCK_SIZE && cur <= |file|
      invariant more ==> OnTheWay(all, file, cur, lap, param[..total])
      invariant !more ==> all == Packed(param[..total], cur, end, truncated)
      decreases more, |file| - cur
    {
      StepOnTheWay(all, file, cur, lap, param[..total], PackStep(file, cur, total, lap));
      more, total, cur, end, truncated := PackNext(file, cur, total, lap, param);
    }
  }

  /** One iteration of the packing loop. */
  method PackNext(file: bytes, cur: nat, total: nat, lap: Lap, param: array<byte>)
    returns (more: bool, total': nat, cur': nat, end: bool, truncated: bool)
    requires param.Length >= 258 && total <= BLOCK_SIZE && cur <= |file|
    modifies param
    ensures var k := PackStep(file, cur, total, lap);
            && total' == total + |k.added| && cur' == k.cur
            && more == k.more && end == k.end && truncated == k.truncated
            && param[..total'] == old(param[..total]) + k.added
  {
    more, total', cur', end, truncated := false, total, cur, false, false;
    if |file| < cur + 3 {
      cur', end := |file|, true;
    } else {
      param[total], param[total + 1], param[total + 2] := file[cur], file[cur + 1], file[cur + 2];
      var n := RecordLength(file, cur);
      if n + total > BLOCK_SIZE {
        // the cursor is put back before the header
      } else if |file| < cur + n {
        total', cur', truncated := total + 3, |file|, true;
      } else {
        StageValue(param, total, file, cur, lap);
        more, total', cur' := true, total + n, cur + n;
      }
    }
  }

  /** Reads the value of the record whose header is staged, and patches an address. */
  method StageValue(param: array<byte>, total: nat, file: bytes, cur: nat, lap: Lap)
    requires param.Length >= 258 && HasRecord(file, cur) && RecordLength(file, cur) + total <= BLOCK_SIZE
    requires param[total] == file[cur] && param[total + 1] == file[cur + 1] && param[total + 2] == file[cur + 2]
    modifies param
    ensures param[..total + RecordLength(file, cur)] == old(param[..total]) + PatchRecord(RecordAt(file, cur), lap)
  {
    var n := RecordLength(file, cur) - 3;
    forall i | 0 <= i < n {
      param[total + 3 + i] := file[cur + 3 + i];
    }
    if n > 0 && file[cur] == TAG_BD_ADDR {
      AddrGet(param, total + 6, lap);
      PutLapBytes(RecordAt(file, cur), 6, lap);
    }
  }

  /** skw_addr_get. */
  method AddrGet(a: array<byte>, at: nat, lap: Lap)
    requires at + 3 <= a.Length
    modifies a
    ensures forall i :: 0 <= i < a.Length ==>
                          a[i] == if lap.valid && at <= i < at + 3 then lap.At(i - at) else old(a[i])
  {
    if lap.valid {
      a[at], a[at + 1], a[at + 2] := lap.b0, lap.b1, lap.b2;
    }
  }

  // ----- the blocks of a whole 6316 image -----

  /** The parameter blocks sent one after the other, until the file ends, breaks off inside a record,
      or holds a record that fits no block. */
  function Blocks6316(file: bytes, cur: nat, lap: Lap): seq<bytes>
    requires cur <= |file|
    decreases |file| - cur
  {
    var p := Pack(file, cur, 0, lap);
    if p.params == [] then []
    else if p.end || p.truncated then [p.params]
    else [p.params] + Blocks6316(file, p.cur, lap)
  }

  /** How many records the packing loop takes. */
  function Take(rs: seq<bytes>, total: nat): (k: nat)
    ensures k <= |rs|
  {
    if rs == [] || total + |rs[0]| > BLOCK_SIZE then 0 else 1 + Take(rs[1..], total + |rs[0]|)
  }

  /** The records in the groups they are sent in. */
  function Greedy(rs: seq<bytes>): seq<seq<bytes>> {
    var k := Take(rs, 0);
    if k == 0 then [] else [rs[..k]] + Greedy(rs[k..])
  }

  lemma PatchAllCons(r: bytes, rs: seq<bytes>, lap: Lap)
    ensures PatchAll([r] + rs, lap) == [PatchRecord(r, lap)] + PatchAll(rs, lap)
    ensures Concat(PatchAll([r] + rs, lap)) == PatchRecord(r, lap) + Concat(PatchAll(rs, lap))
  {
    assert PatchAll([r] + rs, lap) == [PatchRecord(r, lap)] + PatchAll(rs, lap);
    assert ([PatchRecord(r, lap)] + PatchAll(rs, lap))[1..] == PatchAll(rs, lap);
  }

  lemma TakeCons(r: bytes, rs: seq<bytes>, total: nat)
    requires total + |r| <= BLOCK_SIZE
    ensures Take([r] + rs, total) == 1 + Take(rs, total + |r|)
  {
    assert ([r] + rs)[1..] == rs;
  }

  /** p is what is packed beside total bytes from cur on, and rs the records from there. */
  predicate PacksFrom(file: bytes, cur: nat, total: nat, lap: Lap, p: Packed, rs: seq<bytes>) {
    && cur <= |file| && total <= BLOCK_SIZE && Uploadable(file, cur)
    && p == Pack(file, cur, total, lap) && rs == Records(file, cur)
  }

  /** The next record does not fit, or is not there. */
  predicate BlockEnds(file: bytes, cur: nat, total: nat) {
    |file| < cur + 3 || RecordLength(file, cur) + total > BLOCK_SIZE
  }

  /** What packing one more record means. */
  lemma OneRecord(file: bytes, cur: nat, total: nat, lap: Lap, p: Packed, rs: seq<bytes>)
    returns (r: bytes, q: Packed, more: seq<bytes>)
    requires PacksFrom(file, cur, total, lap, p, rs) && !BlockEnds(file, cur, total)
    ensures 3 <= |r| && total + |r| <= BLOCK_SIZE && PacksFrom(file, cur + |r|, total + |r|, lap, q, more)
    ensures p == Behind(PatchRecord(r, lap), q) && rs == [r] + more
  {
    r := RecordAt(file, cur);
    q, more := Pack(file, cur + |r|, total + |r|, lap), Records(file, cur + |r|);
  }

  /** What packing none means. */
  lemma NoRecord(file: bytes, cur: nat, total: nat, lap: Lap)
    requires cur <= |file| && total <= BLOCK_SIZE && Uploadable(file, cur)
    requires BlockEnds(file, cur, total)
    ensures Take(Records(file, cur), total) == 0
    ensures var p := Pack(file, cur, total, lap);
            && p.params == [] && !p.truncated && (p.end <==> Records(file, cur) == [])
            && Uploadable(file, p.cur) && Records(file, p.cur) == Records(file, cur)
  {
  }

  lemma OneMorePacked(r: bytes, more: seq<bytes>, k: nat, lap: Lap, q: Packed)
    requires k <= |more| && q.params == Concat(PatchAll(more[..k], lap))
    ensures var rs := [r] + more;
            && Behind(PatchRecord(r, lap), q).params == Concat(PatchAll(rs[..k + 1], lap)) && rs[k + 1..] == more[k..]
  {
    PatchAllCons(r, more[..k], lap);
    assert ([r] + more)[..k + 1] == [r] + more[..k];
  }

  /** p is as many of these records packed as fit beside total bytes, the others left in the file. */
  predicate Takes(p: Packed, file: bytes, total: nat, lap: Lap, rs: seq<bytes>) {
    var k := Take(rs, total);
    && p.cur <= |file|
    && p.params == Concat(PatchAll(rs[..k], lap)) && !p.truncated && (p.end <==> k == |rs|)
    && Uploadable(file, p.cur) && Records(file, p.cur) == rs[k..]
  }

  lemma TakesNone(file: bytes, cur: nat, total: nat, lap: Lap)
    requires cur <= |file| && total <= BLOCK_SIZE && Uploadable(file, cur)
    requires BlockEnds(file, cur, total)
    ensures Takes(Pack(file, cur, total, lap), file, total, lap, Records(file, cur))
  {
    NoRecord(file, cur, total, lap);
    assert PatchAll(Records(file, cur)[..0], lap) == [];
  }

  lemma TakesOneMore(file: bytes, total: nat, lap: Lap, r: bytes, q: Packed, more: seq<bytes>)
    requires total + |r| <= BLOCK_SIZE
    ensures Takes(q, file, total + |r|, lap, more) ==>
              Takes(Behind(PatchRecord(r, lap), q), file, total, lap, [r] + more)
  {
    if Takes(q, file, total + |r|, lap, more) {
      TakeCons(r, more, total);
      OneMorePacked(r, more, Take(more, total + |r|), lap, q);
    }
  }

  /** The packing loop takes whole records, as many as fit, and leaves the rest of them. */
  lemma {:induction false} PackTakesRecords(file: bytes, cur: nat, total: nat, lap: Lap, p: Packed, rs: seq<bytes>)
    requires cur <= |file|
    ensures PacksFrom(file, cur, total, lap, p, rs) ==> Takes(p, file, total, lap, rs)
    decreases |file| - cur
  {
    if PacksFrom(file, cur, total, lap, p, rs) {
      if BlockEnds(file, cur, total) {
        TakesNone(file, cur, total, lap);
      } else {
        var r, q, more := OneRecord(file, cur, total, lap, p, rs);
        PackTakesRecords(file, cur + |r|, total + |r|, lap, q, more);
        TakesOneMore(file, total, lap, r, q, more);
      }
    }
  }

  /** Packing ends at the end of an uploadable file only; breaks off with a header packed; and
      otherwise neither skips nor creates a record that cannot be uploaded. */
  predicate PackFair(file: bytes, cur: nat, p: Packed) {
    && (p.end ==> Uploadable(file, cur))
    && (p.truncated ==> p.params != [] && !p.end)
    && (!p.truncated ==> (Uploadable(file, cur) <==> Uploadable(file, p.cur)))
  }

  lemma FairBehind(file: bytes, cur: nat, r: bytes, q: Packed)
    requires HasRecord(file, cur) && RecordLength(file, cur) <= BLOCK_SIZE
    requires PackFair(file, cur + RecordLength(file, cur), q)
    ensures PackFair(file, cur, Behind(r, q))
  {
  }

  lemma {:induction false} PackIsFair(file: bytes, cur: nat, total: nat, lap: Lap)
    requires cur <= |file| && total <= BLOCK_SIZE
    ensures PackFair(file, cur, Pack(file, cur, total, lap))
    decreases |file| - cur
  {
    if cur + 3 <= |file| && RecordLength(file, cur) + total <= BLOCK_SIZE && HasRecord(file, cur) {
      var r, next := RecordAt(file, cur), cur + RecordLength(file, cur);
      PackIsFair(file, next, total + |r|, lap);
      FairBehind(file, cur, PatchRecord(r, lap), Pack(file, next, total + |r|, lap));
    }
  }

  lemma {:induction false} RecordsFit(file: bytes, cur: nat)
    requires Uploadable(file, cur)
    ensures AllFit(Records(file, cur))
    decreases |file| - cur
  {
    if HasRecord(file, cur) {
      RecordsFit(file, cur + RecordLength(file, cur));
    }
  }

  predicate AllFit(rs: seq<bytes>) {
    forall r :: r in rs ==> 3 <= |r| <= BLOCK_SIZE
  }

  /** What is sent for these groups of records: one block each. */
  function Sent(groups: seq<seq<bytes>>, lap: Lap): seq<bytes> {
    if groups == [] then [] else [Concat(PatchAll(groups[0], lap))] + Sent(groups[1..], lap)
  }

  lemma FirstGroup(rs: seq<bytes>, lap: Lap)
    requires rs != [] && 3 <= |rs[0]| <= BLOCK_SIZE
    ensures Take(rs, 0) > 0 && Concat(PatchAll(rs[..Take(rs, 0)], lap)) != []
  {
    var k := Take(rs, 0);
    assert rs[..k] == [rs[0]] + rs[1..k];
    PatchAllCons(rs[0], rs[1..k], lap);
  }

  /** The blocks are the greedy groups of the file's records: no record is split or reordered. */
  lemma {:induction false} BlocksAreGreedyGroups(file: bytes, cur: nat, lap: Lap)
    requires cur <= |file| && Uploadable(file, cur)
    ensures Blocks6316(file, cur, lap) == Sent(Greedy(Records(file, cur)), lap)
    decreases |file| - cur
  {
    var rs := Records(file, cur);
    var k := Take(rs, 0);
    var p := Pack(file, cur, 0, lap);
    PackTakesRecords(file, cur, 0, lap, p, rs);
    if rs == [] {
      assert PatchAll(rs[..k], lap) == [];
    } else {
      RecordsFit(file, cur);
      FirstGroup(rs, lap);
      var rest := Greedy(rs[k..]);
      assert Greedy(rs) == [rs[..k]] + rest;
      assert ([rs[..k]] + rest)[1..] == rest;
      if p.end {
        assert rs[k..] == [];
      } else {
        BlocksAreGreedyGroups(file, p.cur, lap);
      }
    }
  }

  predicate FitsBlock(g: seq<bytes>) {
    |Concat(g)| <= 252
  }

  lemma GreedyCons(rs: seq<bytes>)
    requires rs != [] && 3 <= |rs[0]| <= BLOCK_SIZE
    ensures var k := Take(rs, 0);
            && k > 0 && Greedy(rs) == [rs[..k]] + Greedy(rs[k..])
            && rs == rs[..k] + rs[k..] && FitsBlock(rs[..k])
  {
    TakeFits(rs, 0);
  }

  /** The groups are the records in order, and each fits a block. */
  lemma {:induction false} GreedyKeepsRecords(rs: seq<bytes>)
    requires AllFit(rs)
    ensures Concat(Greedy(rs)) == rs
    ensures forall g :: g in Greedy(rs) ==> FitsBlock(g)
  {
    if rs != [] {
      GreedyCons(rs);
      var k := Take(rs, 0);
      GreedyKeepsRecords(rs[k..]);
      ConcatCons(rs[..k], Greedy(rs[k..]));
    }
  }

  lemma ConcatCons<T>(x: seq<T>, xs: seq<seq<T>>)
    ensures Concat([x] + xs) == x + Concat(xs)
  {
    assert ([x] + xs)[1..] == xs;
  }

  lemma {:induction false} TakeFits(rs: seq<bytes>, total: nat)
    requires total <= BLOCK_SIZE
    ensures total + |Concat(rs[..Take(rs, total)])| <= BLOCK_SIZE
  {
    var k := Take(rs, total);
    if k > 0 {
      TakeFits(rs[1..], total + |rs[0]|);
      assert rs[..k] == [rs[0]] + rs[1..][..k - 1];
      ConcatAppend([rs[0]], rs[1..][..k - 1]);
      assert Concat([rs[0]]) == rs[0] + Concat([]);
    }
  }

  lemma PatchAllAppend(a: seq<bytes>, b: seq<bytes>, lap: Lap)
    ensures PatchAll(a + b, lap) == PatchAll(a, lap) + PatchAll(b, lap)
  {
  }

  lemma {:induction false} SentSpellsRecords(groups: seq<seq<bytes>>, lap: Lap)
    ensures Concat(Sent(groups, lap)) == Concat(PatchAll(Concat(groups), lap))
  {
    if groups != [] {
      var g, rest := groups[0], groups[1..];
      SentSpellsRecords(rest, lap);
      PatchAllAppend(g, Concat(rest), lap);
      ConcatAppend(PatchAll(g, lap), PatchAll(Concat(rest), lap));
      assert Sent(groups, lap)[1..] == Sent(rest, lap);
    }
  }

  lemma {:induction false} RecordsSpellFile(file: bytes, cur: nat)
    requires cur <= |file| && Uploadable(file, cur)
    ensures Concat(Records(file, cur)) <= file[cur..] && |file| - cur - |Concat(Records(file, cur))| < 3
    decreases |file| - cur
  {
    if HasRecord(file, cur) {
      var r, next := RecordAt(file, cur), cur + RecordLength(file, cur);
      RecordsSpellFile(file, next);
      assert file[cur..] == r + file[next..];
      assert Records(file, cur)[1..] == Records(file, next);
    }
  }

  /** The upload preserves the image: end to end the blocks spell the file's records, addresses
      patched, and the records spell the file but for a trailing fragment of under three bytes. */
  lemma Upload6316PreservesImage(file: bytes, cur: nat, lap: Lap)
    requires cur <= |file| && Uploadable(file, cur)
    ensures var rs := Records(file, cur);
            && Concat(Blocks6316(file, cur, lap)) == Concat(PatchAll(rs, lap))
            && Concat(rs) <= file[cur..] && |file| - cur - |Concat(rs)| < 3
  {
    var rs := Records(file, cur);
    BlocksAreGreedyGroups(file, cur, lap);
    RecordsFit(file, cur);
    GreedyKeepsRecords(rs);
    SentSpellsRecords(Greedy(rs), lap);
    RecordsSpellFile(file, cur);
  }

  // ----- greedy packing is optimal -----

  lemma {:induction false} ConcatTakeMonotone(rs: seq<bytes>, i: nat, m: nat)
    requires i <= m <= |rs|
    ensures |Concat(rs[i..m])| <= |Concat(rs[..m])|
  {
    assert rs[..m] == rs[..i] + rs[i..m];
    ConcatAppend(rs[..i], rs[i..m]);
  }

  /** No first part of the list that fits a block is longer than what is taken. */
  lemma {:induction false} TakeIsMost(rs: seq<bytes>, total: nat, m: nat)
    requires m <= |rs| && total + |Concat(rs[..m])| <= BLOCK_SIZE
    ensures m <= Take(rs, total)
  {
    if m > 0 {
      assert rs[..m] == [rs[0]] + rs[1..][..m - 1];
      ConcatAppend([rs[0]], rs[1..][..m - 1]);
      assert Concat([rs[0]]) == rs[0] + Concat([]);
      TakeIsMost(rs[1..], total + |rs[0]|, m - 1);
    }
  }

  /** Taking from i on, the greedy loop gets at least as far as taking from the start. */
  lemma TakeFromLater(rs: seq<bytes>, i: nat)
    requires i <= Take(rs, 0)
    ensures Take(rs, 0) <= i + Take(rs[i..], 0)
  {
    var k := Take(rs, 0);
    TakeFits(rs, 0);
    ConcatTakeMonotone(rs, i, k);
    assert rs[i..][..k - i] == rs[i..k];
    TakeIsMost(rs[i..], 0, k - i);
  }

  /** Greedy packing needs no more blocks for a than for b. */
  predicate NoMoreBlocks(a: seq<bytes>, b: seq<bytes>) {
    |Greedy(a)| <= |Greedy(b)|
  }

  /** The first k records of rs make up its first block. */
  predicate Opens(rs: seq<bytes>, k: nat) {
    0 < k <= |rs| && k == Take(rs, 0) && |Greedy(rs)| == 1 + |Greedy(rs[k..])|
  }

  lemma FirstBlock(rs: seq<bytes>) returns (k: nat)
    requires rs != [] && AllFit(rs)
    ensures Opens(rs, k)
  {
    assert rs[0] in rs;
    GreedyCons(rs);
    k := Take(rs, 0);
  }

  lemma AllFitFrom(rs: seq<bytes>, i: nat)
    requires i <= |rs| && AllFit(rs)
    ensures AllFit(rs[i..])
  {
  }

  lemma SecondBlockLater(rs: seq<bytes>, i: nat, k: nat, m: nat)
    requires i < k <= |rs| && Opens(rs, k) && Opens(rs[i..], m)
    ensures k <= i + m
  {
    TakeFromLater(rs, i);
  }

  lemma TailOfTail(rs: seq<bytes>, k: nat, drop: nat)
    requires k + drop <= |rs|
    ensures rs[k..][drop..] == rs[k + drop..]
  {
  }

  /** If both lists start a block, comparing what is left of them is enough. */
  lemma NoMoreBlocksCons(rs: seq<bytes>, i: nat, k: nat, m: nat)
    requires i <= |rs| && Opens(rs, k) && Opens(rs[i..], m)
    ensures i + m <= |rs| && (NoMoreBlocks(rs[i + m..], rs[k..]) ==> NoMoreBlocks(rs[i..], rs))
  {
    TailOfTail(rs, i, m);
  }

  /** If only the longer list starts a block, comparing with what is left of it is enough. */
  lemma NoMoreBlocksSkip(t: seq<bytes>, rs: seq<bytes>, k: nat)
    requires Opens(rs, k)
    ensures NoMoreBlocks(t, rs[k..]) ==> NoMoreBlocks(t, rs)
  {
  }

  /** How many records to leave out behind the first block of k, for the comparison from i on: those up
      to i, or those up to the end of the first block of m that starts at i. */
  function LeaveOut(i: nat, k: nat, m: nat): nat
    requires k <= i + m
  {
    if k <= i then i - k else i + m - k
  }

  lemma SuffixStep(rs: seq<bytes>, i: nat, k: nat, m: nat)
    requires i < |rs| && Opens(rs, k) && Opens(rs[i..], m) && k <= i + m
    ensures var drop := LeaveOut(i, k, m);
            drop <= |rs[k..]| && (NoMoreBlocks(rs[k..][drop..], rs[k..]) ==> NoMoreBlocks(rs[i..], rs))
  {
    TailOfTail(rs, k, LeaveOut(i, k, m));
    if k <= i {
      NoMoreBlocksSkip(rs[i..], rs, k);
    } else {
      NoMoreBlocksCons(rs, i, k, m);
    }
  }

  /** Leaving records out at the front never needs more blocks. */
  lemma {:induction false} GreedySuffix(rs: seq<bytes>, i: nat)
    requires i <= |rs| && AllFit(rs)
    ensures NoMoreBlocks(rs[i..], rs)
    decreases |rs|
  {
    if i < |rs| {
      var k := FirstBlock(rs);
      AllFitFrom(rs, i);
      var m := FirstBlock(rs[i..]);
      if i < k {
        SecondBlockLater(rs, i, k, m);
      }
      SuffixStep(rs, i, k, m);
      AllFitFrom(rs, k);
      GreedySuffix(rs[k..], LeaveOut(i, k, m));
    } else {
      assert rs[i..] == [];
    }
  }

  /** Any way to cut the records, in order, into blocks of at most 252 bytes needs at least as many. */
  lemma {:induction false} GreedyIsMinimal(rs: seq<bytes>, parts: seq<seq<bytes>>)
    requires AllFit(rs)
    requires Concat(parts) == rs && forall g :: g in parts ==> FitsBlock(g)
    ensures |Greedy(rs)| <= |parts|
    decreases |parts|
  {
    if parts != [] {
      var g := parts[0];
      assert rs[..|g|] == g && rs[|g|..] == Concat(parts[1..]);
      GreedyIsMinimal(rs[|g|..], parts[1..]);
      if rs != [] {
        var k := Take(rs, 0);
        GreedyCons(rs);
        assert g in parts && FitsBlock(g);
        assert Concat(rs[..|g|]) == Concat(g);
        TakeIsMost(rs, 0, |g|);
        GreedySuffix(rs[|g|..], k - |g|);
        assert rs[|g|..][k - |g|..] == rs[k..];
      }
    }
  }

  lemma {:induction false} SentCount(groups: seq<seq<bytes>>, lap: Lap)
    ensures |Sent(groups, lap)| == |groups|
  {
    if groups != [] {
      SentCount(groups[1..], lap);
    }
  }

  lemma AsManyAsGreedy(file: bytes, cur: nat, lap: Lap)
    requires cur <= |file| && Uploadable(file, cur)
    ensures |Blocks6316(file, cur, lap)| == |Greedy(Records(file, cur))| && AllFit(Records(file, cur))
  {
    BlocksAreGreedyGroups(file, cur, lap);
    SentCount(Greedy(Records(file, cur)), lap);
    RecordsFit(file, cur);
  }

  /** The upload uses the fewest blocks that any order-keeping partition of the records allows. */
  lemma Upload6316IsMinimal(file: bytes, cur: nat, lap: Lap, parts: seq<seq<bytes>>)
    requires cur <= |file| && Uploadable(file, cur)
    requires Concat(parts) == Records(file, cur) && forall g :: g in parts ==> FitsBlock(g)
    ensures |Blocks6316(file, cur, lap)| <= |parts|
  {
    AsManyAsGreedy(file, cur, lap);
    GreedyIsMinimal(Records(file, cur), parts);
  }

  // ----- 6160: fixed blocks -----

  function SetTopBit(b: byte): byte {
    if b < 0x80 then b + 0x80 else b
  }

  /** The block read at cur as block number index modulo 256: the first such block carries the LAP
      at 7, the second has the top bit of byte 62 set, both as far as they have those bytes. */
  function Block6160(file: bytes, cur: nat, index: byte, lap: Lap): (b: bytes)
    requires cur <= |file|
    ensures |b| == if |file| - cur < BLOCK_SIZE then |file| - cur else BLOCK_SIZE
  {
    var raw := file[cur..if |file| - cur < BLOCK_SIZE then |file| else cur + BLOCK_SIZE];
    if index == 0 then PutLap(raw, 7, lap)
    else if index == 1 && |raw| > 62 then raw[62 := SetTopBit(raw[62])]
    else raw
  }

  method ReadBlock6160(file: bytes, cur: nat, index: byte, lap: Lap, param: array<byte>) returns (len: nat)
    requires cur <= |file| && param.Length >= 258
    modifies param
    ensures len <= BLOCK_SIZE && param[..len] == Block6160(file, cur, index, lap)
  {
    len := if |file| - cur < BLOCK_SIZE then |file| - cur else BLOCK_SIZE;
    forall i | 0 <= i < len {
      param[i] := file[cur + i];
    }
    ghost var raw := file[cur..cur + len];
    assert param[..len] == raw;
    if index == 0 {
      AddrGet(param, 7, lap);
      PutLapBytes(raw, 7, lap);
      assert param[..len] == PutLap(raw, 7, lap);
    } else if index == 1 {
      param[62] := SetTopBit(param[62]);
      assert param[..len] == if len > 62 then raw[62 := SetTopBit(raw[62])] else raw;
    }
  }

  function Blocks6160(file: bytes, cur: nat, index: nat, lap: Lap): seq<bytes>
    requires cur <= |file|
    decreases |file| - cur
  {
    var b := Block6160(file, cur, index % 256, lap);
    if |b| < BLOCK_SIZE then [b] else [b] + Blocks6160(file, cur + BLOCK_SIZE, index + 1, lap)
  }

  /** Byte i of the image as it is sent. The patches recur every 256 blocks, with the block number. */
  function Patched6160(file: bytes, i: nat, lap: Lap): byte
    requires i < |file|
  {
    var block, at := i / BLOCK_SIZE % 256, i % BLOCK_SIZE;
    if block == 0 && lap.valid && 7 <= at < 10 then lap.At(at - 7)
    else if block == 1 && at == 62 then SetTopBit(file[i])
    else file[i]
  }

  lemma Block6160Bytes(file: bytes, index: nat, lap: Lap)
    requires BLOCK_SIZE * index <= |file|
    ensures var b := Block6160(file, BLOCK_SIZE * index, index % 256, lap);
            forall j :: 0 <= j < |b| ==> b[j] == Patched6160(file, BLOCK_SIZE * index + j, lap)
  {
    var cur := BLOCK_SIZE * index;
    var b := Block6160(file, cur, index % 256, lap);
    var raw := file[cur..cur + |b|];
    PutLapBytes(raw, 7, lap);
    forall j | 0 <= j < |b|
      ensures b[j] == Patched6160(file, cur + j, lap)
    {
      assert (cur + j) / BLOCK_SIZE == index && (cur + j) % BLOCK_SIZE == j;
    }
  }

  /** out spells the patched image from cur on. */
  ghost predicate Spells(out: bytes, file: bytes, cur: nat, lap: Lap) {
    cur + |out| == |file| && forall j :: 0 <= j < |out| ==> out[j] == Patched6160(file, cur + j, lap)
  }

  lemma SpellsBehind(b: bytes, rest: bytes, file: bytes, cur: nat, lap: Lap)
    requires cur + |b| <= |file| && Spells(rest, file, cur + |b|, lap)
    requires forall j :: 0 <= j < |b| ==> b[j] == Patched6160(file, cur + j, lap)
    ensures Spells(b + rest, file, cur, lap)
  {
    forall j | 0 <= j < |b + rest|
      ensures (b + rest)[j] == Patched6160(file, cur + j, lap)
    {
      if j >= |b| {
        assert rest[j - |b|] == Patched6160(file, cur + |b| + (j - |b|), lap);
      }
    }
  }

  /** The blocks from block index on: that many, spelling the rest of the patched image. */
  ghost predicate Covers(bs: seq<bytes>, file: bytes, index: nat, lap: Lap) {
    var cur := BLOCK_SIZE * index;
    && cur <= |file| && |bs| == (|file| - cur) / BLOCK_SIZE + 1 && Spells(Concat(bs), file, cur, lap)
  }

  lemma CoversBehind(b: bytes, rest: seq<bytes>, file: bytes, index: nat, lap: Lap)
    requires BLOCK_SIZE * index <= |file| && b == Block6160(file, BLOCK_SIZE * index, index % 256, lap)
    requires if |b| < BLOCK_SIZE then rest == [] else Covers(rest, file, index + 1, lap)
    ensures Covers([b] + rest, file, index, lap)
  {
    var cur := BLOCK_SIZE * index;
    Block6160Bytes(file, index, lap);
    assert Spells(Concat(rest), file, cur + |b|, lap);
    SpellsBehind(b, Concat(rest), file, cur, lap);
    ConcatCons(b, rest);
  }

  lemma {:induction false} Blocks6160From(file: bytes, index: nat, lap: Lap)
    requires BLOCK_SIZE * index <= |file|
    ensures Covers(Blocks6160(file, BLOCK_SIZE * index, index, lap), file, index, lap)
    decreases |file| - BLOCK_SIZE * index
  {
    var cur := BLOCK_SIZE * index;
    var b := Block6160(file, cur, index % 256, lap);
    if |b| < BLOCK_SIZE {
      CoversBehind(b, [], file, index, lap);
      assert [b] + [] == [b];
    } else {
      Blocks6160From(file, index + 1, lap);
      CoversBehind(b, Blocks6160(file, cur + BLOCK_SIZE, index + 1, lap), file, index, lap);
    }
  }

  /** What the upload is meant to change: the address at 7 and one bit at 314. */
  function Meant6160(file: bytes, i: nat, lap: Lap): byte
    requires i < |file|
  {
    if lap.valid && 7 <= i < 10 then lap.At(i - 7)
    else if i == 314 then SetTopBit(file[i])
    else file[i]
  }

  // The first byte the wrapped block number makes the code patch again.
  const WRAP: nat := 256 * BLOCK_SIZE + 7

  /** For every file: n / 252 + 1 blocks, the last one short and possibly empty, that spell the file
      with its patches; these are the ones meant, for every file of at most 64519 bytes. */
  lemma Upload6160PreservesImage(file: bytes, lap: Lap)
    ensures var bs := Blocks6160(file, 0, 0, lap);
            && |bs| == |file| / BLOCK_SIZE + 1 && Spells(Concat(bs), file, 0, lap)
            && (|file| <= WRAP ==> forall i :: 0 <= i < |file| ==> Concat(bs)[i] == Meant6160(file, i, lap))
  {
    Blocks6160From(file, 0, lap);
    if |file| <= WRAP {
      forall i | 0 <= i < |file|
        ensures Concat(Blocks6160(file, 0, 0, lap))[i] == Meant6160(file, i, lap)
      {
        MeantBeforeWrap(file, i, lap);
        assert 0 + i == i;
      }
    }
  }

  lemma MeantBeforeWrap(file: bytes, i: nat, lap: Lap)
    requires i < |file| && i < WRAP
    ensures Patched6160(file, i, lap) == Meant6160(file, i, lap)
  {
    var block, at := i / BLOCK_SIZE, i % BLOCK_SIZE;
    assert i == BLOCK_SIZE * block + at;
    if block < 256 {
      assert block % 256 == block;
    }
  }

  /** Byte i lies where an address is patched in, or the one bit, in a block numbered like the first or
      the second. */
  predicate UnderLap(i: nat) {
    i / BLOCK_SIZE % 256 == 0 && 7 <= i % BLOCK_SIZE < 10
  }

  predicate UnderBit(i: nat) {
    i / BLOCK_SIZE % 256 == 1 && i % BLOCK_SIZE == 62
  }

  /** From the wrap on, a patch changes nothing at byte i: the address is invalid or there already, and
      the bit is set already. */
  predicate Unharmed(file: bytes, i: nat, lap: Lap)
    requires i < |file|
  {
    && (UnderLap(i) && lap.valid ==> file[i] == lap.At(i % BLOCK_SIZE - 7))
    && (UnderBit(i) ==> file[i] >= 0x80)
  }

  lemma MeantAfterWrap(file: bytes, i: nat, lap: Lap)
    requires WRAP <= i < |file|
    ensures Patched6160(file, i, lap) == Meant6160(file, i, lap) <==> Unharmed(file, i, lap)
  {
  }

  /** Exactly when the whole image is sent as it is meant. */
  lemma WrapPatchesAgain(file: bytes, lap: Lap)
    ensures var out := Concat(Blocks6160(file, 0, 0, lap));
            && |out| == |file|
            && ((forall i :: 0 <= i < |file| ==> out[i] == Meant6160(file, i, lap))
                <==> forall i :: WRAP <= i < |file| ==> Unharmed(file, i, lap))
  {
    Blocks6160From(file, 0, lap);
    var out := Concat(Blocks6160(file, 0, 0, lap));
    forall i | 0 <= i < |file|
      ensures out[i] == Meant6160(file, i, lap) <==> i < WRAP || Unharmed(file, i, lap)
    {
      assert out[i] == Patched6160(file, 0 + i, lap);
      if i < WRAP {
        MeantBeforeWrap(file, i, lap);
      } else {
        MeantAfterWrap(file, i, lap);
      }
    }
  }

  /** The first byte that can differ: in a longer file byte 64519 is overwritten with the address. */
  lemma FirstHarm(file: bytes, lap: Lap)
    requires |file| > WRAP
    ensures var out := Concat(Blocks6160(file, 0, 0, lap));
            |out| == |file| && (out[WRAP] == Meant6160(file, WRAP, lap) <==> !lap.valid || file[WRAP] == lap.b0)
  {
    Blocks6160From(file, 0, lap);
    assert Concat(Blocks6160(file, 0, 0, lap))[WRAP] == Patched6160(file, 0 + WRAP, lap);
    assert WRAP / BLOCK_SIZE % 256 == 0 && WRAP % BLOCK_SIZE == 7;
  }
}
