/** The byte-level codec of the log-structured payload storage: CRC-32,
    little-endian integers, the two WAL record layouts, WAL replay with its
    stop-on-corruption rules, the snapshot file, and the write-position
    bookkeeping of `store` and `delete`.

    The WAL is one byte sequence (the file's contents). A store record is
    `Op(1)=1 | Id(8) | Len(4) | Data(Len) | Crc(4)` and a delete record is
    `Op(1)=2 | Id(8) | Crc(4)`; the CRC covers every byte of the record
    before it. The in-memory index maps an id to the offset of its `Len`
    field. */
module WalCodec {
  import opened Wrappers

  // ---------------------------------------------------------------------
  // CRC-32 (IEEE 802.3, reflected polynomial 0xEDB88320)
  // ---------------------------------------------------------------------

  /** A 32-bit checksum as an unsigned number. */
  type Checksum = c: int | 0 <= c <= U32_MAX

  /** The checksum the codec uses. The record and snapshot layouts below
      take it as a parameter, so that what is proved about them holds for
      any checksum function, `Crc32Hash` included. */
  type ChecksumFn = seq<Byte> -> Checksum

  /** `j` more shift-and-xor steps of the table construction. */
  function CrcShift(c: bv32, j: nat): bv32
    decreases j
  {
    if j == 0 then c
    else CrcShift(if c & 1 != 0 then (c >> 1) ^ 0xEDB8_8320 else c >> 1, j - 1)
  }

  /** Entry `i & 0xFF` of the 256-entry table. */
  function CrcTableEntry(i: bv32): bv32
  {
    CrcShift(i & 0xFF, 8)
  }

  /** One byte of the table-driven loop: `(crc >> 8) ^ TABLE[(crc ^ b) & 0xFF]`. */
  function CrcStep(crc: bv32, b: Byte): bv32
  {
    (crc >> 8) ^ CrcTableEntry(crc ^ (b as bv32))
  }

  /** The update loop over `data`. */
  function CrcUpdate(crc: bv32, data: seq<Byte>): bv32
    decreases |data|
  {
    if |data| == 0 then crc
    else CrcUpdate(CrcStep(crc, data[0]), data[1..])
  }

  /** `crc32_hash`: starts from all ones and complements the result. */
  function Crc32(data: seq<Byte>): bv32
  {
    !CrcUpdate(0xFFFF_FFFF, data)
  }

  /** `crc32_hash` as an unsigned number. */
  function Crc32Hash(data: seq<Byte>): Checksum
  {
    Bv32ToChecksum(Crc32(data))
  }

  function Bv32ToChecksum(c: bv32): Checksum
  {
    c as int
  }

  /** The update loop can be split at any point: checksumming `a + b` is
      checksumming `a` and then continuing with `b`. */
  lemma {:induction false} CrcUpdateAppend(c: bv32, a: seq<Byte>, b: seq<Byte>)
    ensures CrcUpdate(c, a + b) == CrcUpdate(CrcUpdate(c, a), b)
    decreases |a|
  {
    if |a| == 0 {
      assert a + b == b;
    } else {
      assert (a + b)[0] == a[0];
      assert (a + b)[1..] == a[1..] + b;
      CrcUpdateAppend(CrcStep(c, a[0]), a[1..], b);
    }
  }

  // ---------------------------------------------------------------------
  // Little-endian integers
  // ---------------------------------------------------------------------

  function Pow256(n: nat): (r: nat)
    ensures r >= 1
  {
    if n == 0 then 1 else 256 * Pow256(n - 1)
  }

  /** The number a little-endian byte string denotes (`from_le_bytes`). */
  function LeValue(s: seq<Byte>): (r: nat)
    ensures r < Pow256(|s|)
  {
    if |s| == 0 then 0 else s[0] + 256 * LeValue(s[1..])
  }

  /** `to_le_bytes` of an `n`-byte unsigned integer. */
  function Le(x: nat, n: nat): (r: seq<Byte>)
    requires x < Pow256(n)
    ensures |r| == n
    ensures LeValue(r) == x
  {
    if n == 0 then [] else [x % 256] + Le(x / 256, n - 1)
  }

  /** The powers of 256 the fixed-width fields use. */
  lemma Pow256Values()
    ensures Pow256(4) == U32_MAX + 1
    ensures Pow256(8) == U64_MAX + 1
  {
    assert Pow256(1) == 256;
    assert Pow256(2) == 65536;
    assert Pow256(3) == 16777216;
    assert Pow256(4) == 4294967296;
    assert Pow256(5) == 1099511627776;
    assert Pow256(6) == 281474976710656;
    assert Pow256(7) == 72057594037927936;
  }

  /** `n.to_le_bytes()` for a `u64`. */
  function LeU64(x: nat): (r: seq<Byte>)
    requires IsU64(x)
    ensures |r| == 8 && LeValue(r) == x
  {
    Pow256Values();
    Le(x, 8)
  }

  /** `n.to_le_bytes()` for a `u32`. */
  function LeU32(x: nat): (r: seq<Byte>)
    requires x <= U32_MAX
    ensures |r| == 4 && LeValue(r) == x
  {
    Pow256Values();
    Le(x, 4)
  }

  /** Decoding any 8-byte string gives a `u64`, any 4-byte string a `u32`. */
  lemma LeValueBounds(s: seq<Byte>)
    ensures |s| == 8 ==> IsU64(LeValue(s))
    ensures |s| == 4 ==> LeValue(s) <= U32_MAX
  {
    Pow256Values();
  }

  // ---------------------------------------------------------------------
  // WAL records
  // ---------------------------------------------------------------------

  const STORE_MARKER: Byte := 1
  const DELETE_MARKER: Byte := 2
  /** `1 + 8 + 4 + 4`: a store record's size without its payload. */
  const STORE_OVERHEAD: nat := 17
  /** `1 + 8 + 4`: the size of a delete record. */
  const DELETE_RECORD_SIZE: nat := 13
  /** The index points this far past the start of a store record. */
  const LEN_FIELD_OFFSET: nat := 9

  datatype WalOp = StoreOp(id: nat, payload: seq<Byte>) | DeleteOp(id: nat)

  predicate ValidOp(op: WalOp) {
    IsU64(op.id) && (op.StoreOp? ==> |op.payload| <= U32_MAX)
  }

  predicate ValidOps(ops: seq<WalOp>) {
    forall i | 0 <= i < |ops| :: ValidOp(ops[i])
  }

  /** The bytes the CRC of a store record covers: `Op | Id | Len | Data`. */
  function StoreBody(id: nat, payload: seq<Byte>): (r: seq<Byte>)
    requires IsU64(id) && |payload| <= U32_MAX
    ensures |r| == 13 + |payload|
  {
    [STORE_MARKER] + LeU64(id) + LeU32(|payload|) + payload
  }

  /** The bytes one operation appends to the WAL. */
  function OpRecord(op: WalOp, crc: ChecksumFn): (r: seq<Byte>)
    requires ValidOp(op)
    ensures |r| == OpSize(op)
  {
    match op
    case StoreOp(id, payload) =>
      var body := StoreBody(id, payload);
      body + LeU32(crc(body))
    case DeleteOp(id) =>
      var body := [DELETE_MARKER] + LeU64(id);
      body + LeU32(crc(body))
  }

  /** The number of bytes the records of `ops` occupy. */
  function OpsSize(ops: seq<WalOp>): nat {
    if |ops| == 0 then 0 else OpSize(ops[0]) + OpsSize(ops[1..])
  }

  function EncodeOps(ops: seq<WalOp>, crc: ChecksumFn): (r: seq<Byte>)
    requires ValidOps(ops)
    ensures |r| == OpsSize(ops)
  {
    if |ops| == 0 then [] else OpRecord(ops[0], crc) + EncodeOps(ops[1..], crc)
  }

  /** The number of bytes an operation's record occupies. */
  function OpSize(op: WalOp): nat {
    match op
    case StoreOp(_, payload) => STORE_OVERHEAD + |payload|
    case DeleteOp(_) => DELETE_RECORD_SIZE
  }

  /** The index after one operation whose record starts at byte `pos`: a
      store maps the id to the offset of its `Len` field, a delete removes
      the id. */
  function ApplyOp(op: WalOp, index: map<nat, nat>, pos: nat): map<nat, nat> {
    match op
    case StoreOp(id, _) => index[id := pos + LEN_FIELD_OFFSET]
    case DeleteOp(id) => index - {id}
  }

  /** Reference semantics of a WAL: the index a sequence of operations
      leaves when the first record starts at byte `pos`; a later record
      overrides an earlier one. */
  function ApplyOps(ops: seq<WalOp>, index: map<nat, nat>, pos: nat): map<nat, nat>
  {
    if |ops| == 0 then index
    else ApplyOps(ops[1..], ApplyOp(ops[0], index, pos), pos + OpSize(ops[0]))
  }

  // ---------------------------------------------------------------------
  // Replay
  // ---------------------------------------------------------------------

  /** The only error replay reports: a read of a store record's length or
      payload that hits the end of the file. */
  datatype IoError = UnexpectedEof

  /** What reading one record at a position yields: replay stops there, the
      file ends inside a store record's length or payload, or an intact
      store or delete record was read (`next` is where the next record
      starts). */
  datatype RecordRead = Stop | Eof | StoreRead(id: nat, next: nat) | DeleteRead(id: nat)

  /** One iteration of the replay loop's body. A truncated marker, id or
      CRC, a CRC mismatch and an unknown marker stop replay; a truncated
      length or payload of a store record is an I/O error. */
  function ReadRecord(wal: seq<Byte>, pos: nat, crc: ChecksumFn): (r: RecordRead)
    ensures r.StoreRead? ==> pos < r.next <= |wal|
    ensures r.DeleteRead? ==> pos + DELETE_RECORD_SIZE <= |wal|
  {
    if pos + 9 > |wal| then Stop
    else
      var marker := wal[pos];
      var id := LeValue(wal[pos + 1..pos + 9]);
      if marker == STORE_MARKER then
        if pos + 13 > |wal| then Eof
        else
          var len := LeValue(wal[pos + 9..pos + 13]);
          if pos + 13 + len > |wal| then Eof
          else if pos + 17 + len > |wal| then Stop
          else if LeValue(wal[pos + 13 + len..pos + 17 + len]) != crc(wal[pos..pos + 13 + len]) then Stop
          else StoreRead(id, pos + 17 + len)
      else if marker == DELETE_MARKER then
        if pos + 13 > |wal| then Stop
        else if LeValue(wal[pos + 9..pos + 13]) != crc(wal[pos..pos + 9]) then Stop
        else DeleteRead(id)
      else Stop
  }

  /** `replay_wal_from`: applies records from byte `pos` while `pos < end`,
      keeping what was applied when a record stops replay. */
  function Replay(wal: seq<Byte>, index: map<nat, nat>, pos: nat, end: nat, crc: ChecksumFn): (r: Result<map<nat, nat>, IoError>)
    decreases |wal| - pos, 1
  {
    if pos >= end then Success(index)
    else ReplayRecord(wal, index, pos, end, crc)
  }

  /** One turn of the replay loop: read the record at `pos`, apply it and go
      on, or stop. */
  function ReplayRecord(wal: seq<Byte>, index: map<nat, nat>, pos: nat, end: nat, crc: ChecksumFn): (r: Result<map<nat, nat>, IoError>)
    decreases |wal| - pos, 0
  {
    match ReadRecord(wal, pos, crc)
    case Stop => Success(index)
    case Eof => Failure(UnexpectedEof)
    case StoreRead(id, next) => Replay(wal, index[id := pos + LEN_FIELD_OFFSET], next, end, crc)
    case DeleteRead(id) => Replay(wal, index - {id}, pos + DELETE_RECORD_SIZE, end, crc)
  }

  /** A slice of `w` inside a stretch that equals `r` is the matching
      slice of `r`. */
  lemma SubSlice(w: seq<Byte>, pos: nat, r: seq<Byte>, a: nat, b: nat)
    requires pos + |r| <= |w| && w[pos..pos + |r|] == r && a <= b <= |r|
    ensures w[pos + a..pos + b] == r[a..b]
  {
    assert forall k | pos + a <= k < pos + b :: w[k] == w[pos..pos + |r|][k - pos];
  }

  /** The fields of an encoded store record. */
  lemma StoreRecordLayout(id: nat, payload: seq<Byte>, crc: ChecksumFn)
    requires ValidOp(StoreOp(id, payload))
    ensures var rec := OpRecord(StoreOp(id, payload), crc);
            var len := |payload|;
            rec[0] == STORE_MARKER &&
            rec[1..9] == LeU64(id) &&
            rec[9..13] == LeU32(len) &&
            rec[13 + len..17 + len] == LeU32(crc(rec[..13 + len]))
  {
    var body := StoreBody(id, payload);
    var rec := OpRecord(StoreOp(id, payload), crc);
    assert rec == body + LeU32(crc(body));
    assert rec[..13 + |payload|] == body;
  }

  /** The fields of an encoded delete record. */
  lemma DeleteRecordLayout(id: nat, crc: ChecksumFn)
    requires IsU64(id)
    ensures var rec := OpRecord(DeleteOp(id), crc);
            rec[0] == DELETE_MARKER &&
            rec[1..9] == LeU64(id) &&
            rec[9..13] == LeU32(crc(rec[..9]))
  {
    var body := [DELETE_MARKER] + LeU64(id);
    var rec := OpRecord(DeleteOp(id), crc);
    assert rec == body + LeU32(crc(body));
    assert rec[..9] == body;
  }

  /** An intact store record reads back as itself. */
  lemma ReadStoreRecord(w: seq<Byte>, pos: nat, id: nat, payload: seq<Byte>, crc: ChecksumFn)
    requires ValidOp(StoreOp(id, payload))
    requires pos + OpSize(StoreOp(id, payload)) <= |w|
    requires w[pos..pos + OpSize(StoreOp(id, payload))] == OpRecord(StoreOp(id, payload), crc)
    ensures ReadRecord(w, pos, crc) == StoreRead(id, pos + STORE_OVERHEAD + |payload|)
  {
    var rec := OpRecord(StoreOp(id, payload), crc);
    var len := |payload|;
    StoreRecordLayout(id, payload, crc);
    SubSlice(w, pos, rec, 1, 9);
    SubSlice(w, pos, rec, 9, 13);
    SubSlice(w, pos, rec, 13 + len, 17 + len);
    SubSlice(w, pos, rec, 0, 13 + len);
    assert w[pos] == rec[0];
    assert rec[0..13 + len] == rec[..13 + len];
  }

  /** An intact delete record reads back as itself. */
  lemma ReadDeleteRecord(w: seq<Byte>, pos: nat, id: nat, crc: ChecksumFn)
    requires IsU64(id)
    requires pos + DELETE_RECORD_SIZE <= |w| && w[pos..pos + DELETE_RECORD_SIZE] == OpRecord(DeleteOp(id), crc)
    ensures ReadRecord(w, pos, crc) == DeleteRead(id)
  {
    var rec := OpRecord(DeleteOp(id), crc);
    DeleteRecordLayout(id, crc);
    SubSlice(w, pos, rec, 1, 9);
    SubSlice(w, pos, rec, 9, 13);
    SubSlice(w, pos, rec, 0, 9);
    assert w[pos] == rec[0];
    assert rec[0..9] == rec[..9];
  }

  /** The operations after the first of a valid sequence are valid. */
  lemma ValidOpsTail(ops: seq<WalOp>)
    requires |ops| > 0 && ValidOps(ops)
    ensures ValidOp(ops[0]) && ValidOps(ops[1..])
  {
    assert forall i | 0 <= i < |ops[1..]| :: ops[1..][i] == ops[i + 1];
  }

  /** What reading the record of `op` at `pos` gives. */
  function ExpectedRead(op: WalOp, pos: nat): RecordRead {
    match op
    case StoreOp(id, payload) => StoreRead(id, pos + STORE_OVERHEAD + |payload|)
    case DeleteOp(id) => DeleteRead(id)
  }

  /** The bytes of `w` at `pos` are the record of `op`. */
  ghost predicate RecordAt(w: seq<Byte>, pos: nat, op: WalOp, crc: ChecksumFn)
    requires ValidOp(op)
  {
    pos + OpSize(op) <= |w| && w[pos..pos + OpSize(op)] == OpRecord(op, crc)
  }

  /** Where reading the records of `ops` one after another from `pos`
      ends, if each reads back as its operation. */
  ghost function ParsedEnd(w: seq<Byte>, pos: nat, ops: seq<WalOp>, crc: ChecksumFn): Option<nat>
    decreases |ops|
  {
    if |ops| == 0 then Some(pos)
    else if ReadRecord(w, pos, crc) == ExpectedRead(ops[0], pos) then
      ParsedEnd(w, pos + OpSize(ops[0]), ops[1..], crc)
    else None
  }

  /** The record of a valid operation reads back as that operation. */
  lemma ReadRecordAt(w: seq<Byte>, pos: nat, op: WalOp, crc: ChecksumFn)
    requires ValidOp(op) && RecordAt(w, pos, op, crc)
    ensures ReadRecord(w, pos, crc) == ExpectedRead(op, pos)
  {
    match op {
      case StoreOp(id, payload) => ReadStoreRecord(w, pos, id, payload, crc);
      case DeleteOp(id) => ReadDeleteRecord(w, pos, id, crc);
    }
  }

  /** Replay applies records that read back as `ops` one after the other
      and carries on from where they end. */
  lemma {:induction false} ReplayParsed(w: seq<Byte>, pos: nat, ops: seq<WalOp>, end: nat, index: map<nat, nat>, crc: ChecksumFn)
    requires ParsedEnd(w, pos, ops, crc) == Some(end)
    ensures Replay(w, index, pos, |w|, crc) == Replay(w, ApplyOps(ops, index, pos), end, |w|, crc)
    decreases |ops|
  {
    if |ops| > 0 {
      ReplayHead(w, pos, ops, end, index, crc);
      ReplayParsed(w, pos + OpSize(ops[0]), ops[1..], end, ApplyOp(ops[0], index, pos), crc);
    }
  }

  /** Replay applies the first parsed record and moves past it. */
  lemma ReplayHead(w: seq<Byte>, pos: nat, ops: seq<WalOp>, end: nat, index: map<nat, nat>, crc: ChecksumFn)
    requires |ops| > 0 && ParsedEnd(w, pos, ops, crc) == Some(end)
    ensures Replay(w, index, pos, |w|, crc) == Replay(w, ApplyOp(ops[0], index, pos), pos + OpSize(ops[0]), |w|, crc)
    ensures ParsedEnd(w, pos + OpSize(ops[0]), ops[1..], crc) == Some(end)
  {
  }

  /** A stretch of `w` that equals `a + b` holds `a` first and `b` after it. */

  /** The encoding of valid operations reads back, record by record, as
      those operations and ends where the encoding ends. */
  lemma {:induction false} EncodedParses(w: seq<Byte>, pos: nat, ops: seq<WalOp>, end: nat, crc: ChecksumFn)
    requires ValidOps(ops) && pos <= end <= |w| && w[pos..end] == EncodeOps(ops, crc)
    ensures ParsedEnd(w, pos, ops, crc) == Some(end)
    decreases |ops|
  {
    if |ops| > 0 {
      EncodedHead(w, pos, ops, end, crc);
      EncodedParses(w, pos + OpSize(ops[0]), ops[1..], end, crc);
    }
  }

  /** The first record of an encoding reads back as its operation, and the
      encoding of the rest follows it. */
  lemma EncodedHead(w: seq<Byte>, pos: nat, ops: seq<WalOp>, end: nat, crc: ChecksumFn)
    requires |ops| > 0 && ValidOps(ops) && pos <= end <= |w| && w[pos..end] == EncodeOps(ops, crc)
    ensures ReadRecord(w, pos, crc) == ExpectedRead(ops[0], pos)
    ensures ValidOps(ops[1..]) && pos + OpSize(ops[0]) <= end && w[pos + OpSize(ops[0])..end] == EncodeOps(ops[1..], crc)
  {
    ValidOpsTail(ops);
    FirstRecord(w, pos, ops, end, crc);
    RestRecords(w, pos, ops, end, crc);
    ReadRecordAt(w, pos, ops[0], crc);
  }

  /** Where the encoding of `ops` sits in `w`, the first operation's record
      comes first ... */
  lemma FirstRecord(w: seq<Byte>, pos: nat, ops: seq<WalOp>, end: nat, crc: ChecksumFn)
    requires |ops| > 0 && ValidOps(ops)
    requires pos <= end <= |w| && w[pos..end] == EncodeOps(ops, crc)
    ensures RecordAt(w, pos, ops[0], crc)
  {
    var enc, n := EncodeOps(ops, crc), OpSize(ops[0]);
    EncodeOpsSplit(ops, crc);
    WindowHead(w, pos, end, enc, n, OpRecord(ops[0], crc));
  }

  /** ... and the encoding of the rest follows it. */
  lemma RestRecords(w: seq<Byte>, pos: nat, ops: seq<WalOp>, end: nat, crc: ChecksumFn)
    requires |ops| > 0 && ValidOps(ops)
    requires pos <= end <= |w| && w[pos..end] == EncodeOps(ops, crc)
    ensures pos + OpSize(ops[0]) <= end && w[pos + OpSize(ops[0])..end] == EncodeOps(ops[1..], crc)
  {
    var enc, n := EncodeOps(ops, crc), OpSize(ops[0]);
    EncodeOpsSplit(ops, crc);
    WindowTail(w, pos, end, enc, n, enc[n..]);
  }

  /** The encoding of a non-empty sequence is its first record followed by
      the encoding of the rest. */
  lemma EncodeOpsSplit(ops: seq<WalOp>, crc: ChecksumFn)
    requires |ops| > 0 && ValidOps(ops)
    ensures ValidOp(ops[0]) && ValidOps(ops[1..])
    ensures OpSize(ops[0]) <= |EncodeOps(ops, crc)|
    ensures EncodeOps(ops, crc)[..OpSize(ops[0])] == OpRecord(ops[0], crc)
    ensures EncodeOps(ops, crc)[OpSize(ops[0])..] == EncodeOps(ops[1..], crc)
  {
    ValidOpsTail(ops);
  }

  /** Where a stretch of `w` equals `s`, the first `n` bytes of the stretch
      are those of `s` ... */
  lemma WindowHead(w: seq<Byte>, pos: nat, end: nat, s: seq<Byte>, n: nat, t: seq<Byte>)
    requires pos <= end <= |w| && w[pos..end] == s && n <= |s| && s[..n] == t
    ensures pos + n <= end && w[pos..pos + n] == t
  {
    assert w[pos..pos + n] == w[pos..end][..n];
  }

  /** ... and so are the bytes after them. */
  lemma WindowTail(w: seq<Byte>, pos: nat, end: nat, s: seq<Byte>, n: nat, t: seq<Byte>)
    requires pos <= end <= |w| && w[pos..end] == s && n <= |s| && s[n..] == t
    ensures pos + n <= end && w[pos + n..end] == t
  {
    assert w[pos + n..end] == w[pos..end][n..];
  }

  /** Replay reads the records of valid operations back as those
      operations and goes on with whatever follows them. */
  lemma ReplayThrough(w: seq<Byte>, pos: nat, ops: seq<WalOp>, end: nat, index: map<nat, nat>, crc: ChecksumFn)
    requires ValidOps(ops) && pos <= end <= |w| && w[pos..end] == EncodeOps(ops, crc)
    ensures Replay(w, index, pos, |w|, crc) == Replay(w, ApplyOps(ops, index, pos), end, |w|, crc)
  {
    EncodedParses(w, pos, ops, end, crc);
    ReplayParsed(w, pos, ops, end, index, crc);
  }

  /** Replaying the encoding of valid operations, appended to any prefix
      that ends where replay starts, applies exactly those operations. */
  lemma ReplayEncoded(p: seq<Byte>, ops: seq<WalOp>, index: map<nat, nat>, crc: ChecksumFn)
    requires ValidOps(ops)
    ensures Replay(p + EncodeOps(ops, crc), index, |p|, |p + EncodeOps(ops, crc)|, crc) == Success(ApplyOps(ops, index, |p|))
  {
    var w := p + EncodeOps(ops, crc);
    assert w[|p|..|w|] == EncodeOps(ops, crc);
    ReplayThrough(w, |p|, ops, |w|, index, crc);
  }

  /** Where replay finds too few bytes for a record header, or an unknown
      marker, it stops and keeps what it has. */
  lemma ReplayStopsAt(w: seq<Byte>, pos: nat, index: map<nat, nat>, crc: ChecksumFn)
    requires pos + 9 > |w| || (w[pos] != STORE_MARKER && w[pos] != DELETE_MARKER)
    ensures Replay(w, index, pos, |w|, crc) == Success(index)
  {
  }

  /** Where a store record's header is cut off inside its length field,
      or its length field runs past the end of the file, replay reports an
      unexpected end of file. */
  lemma ReplayFailsAt(w: seq<Byte>, pos: nat, index: map<nat, nat>, crc: ChecksumFn)
    requires pos + 9 <= |w| && w[pos] == STORE_MARKER
    requires pos + 13 > |w| || pos + 13 + LeValue(w[pos + 9..pos + 13]) > |w|
    ensures Replay(w, index, pos, |w|, crc) == Failure(UnexpectedEof)
  {
  }

  /** A record at `pos` whose header is intact but whose checksum is cut
      off by the end of the file or does not match the bytes it covers: a
      store record with its whole payload present, or a delete record. */
  predicate BadChecksumAt(w: seq<Byte>, pos: nat, crc: ChecksumFn) {
    pos + 9 <= |w|
    && if w[pos] == STORE_MARKER then
         pos + 13 <= |w|
         && var len := LeValue(w[pos + 9..pos + 13]);
         pos + 13 + len <= |w|
         && (pos + 17 + len > |w| || LeValue(w[pos + 13 + len..pos + 17 + len]) != crc(w[pos..pos + 13 + len]))
       else
         w[pos] == DELETE_MARKER
         && (pos + 13 > |w| || LeValue(w[pos + 9..pos + 13]) != crc(w[pos..pos + 9]))
  }

  /** A record with a missing or mismatched checksum ends replay, which
      keeps the index it had built; it is not an error. */
  lemma ReplayStopsOnBadChecksum(w: seq<Byte>, pos: nat, index: map<nat, nat>, crc: ChecksumFn)
    requires BadChecksumAt(w, pos, crc)
    ensures Replay(w, index, pos, |w|, crc) == Success(index)
  {
  }

  /** Replay from the start of a WAL that begins with the records of
      valid operations continues, after them, from what they leave. */
  lemma ReplayAfterPrefix(w: seq<Byte>, ops: seq<WalOp>, index: map<nat, nat>, crc: ChecksumFn)
    requires ValidOps(ops) && OpsSize(ops) <= |w| && w[..OpsSize(ops)] == EncodeOps(ops, crc)
    ensures Replay(w, index, 0, |w|, crc) == Replay(w, ApplyOps(ops, index, 0), OpsSize(ops), |w|, crc)
  {
    assert w[0..OpsSize(ops)] == w[..OpsSize(ops)];
    ReplayThrough(w, 0, ops, OpsSize(ops), index, crc);
  }

  /** A torn write: after intact records, a tail too short for a record
      header, or one starting with an unknown marker, ends replay and keeps
      everything before it. */
  lemma ReplayKeepsPrefixBeforeTornTail(w: seq<Byte>, ops: seq<WalOp>, index: map<nat, nat>, crc: ChecksumFn)
    requires ValidOps(ops) && OpsSize(ops) <= |w| && w[..OpsSize(ops)] == EncodeOps(ops, crc)
    requires var n := OpsSize(ops); n + 9 > |w| || (w[n] != STORE_MARKER && w[n] != DELETE_MARKER)
    ensures Replay(w, index, 0, |w|, crc) == Success(ApplyOps(ops, index, 0))
  {
    var n, mid := OpsSize(ops), ApplyOps(ops, index, 0);
    ReplayAfterPrefix(w, ops, index, crc);
    ReplayStopsAt(w, n, mid, crc);
  }

  /** After intact records, a record whose checksum is cut off or wrong
      ends replay and keeps everything before it. */
  lemma ReplayKeepsPrefixBeforeBadChecksum(w: seq<Byte>, ops: seq<WalOp>, index: map<nat, nat>, crc: ChecksumFn)
    requires ValidOps(ops) && OpsSize(ops) <= |w| && w[..OpsSize(ops)] == EncodeOps(ops, crc)
    requires BadChecksumAt(w, OpsSize(ops), crc)
    ensures Replay(w, index, 0, |w|, crc) == Success(ApplyOps(ops, index, 0))
  {
    var n, mid := OpsSize(ops), ApplyOps(ops, index, 0);
    ReplayAfterPrefix(w, ops, index, crc);
    ReplayStopsOnBadChecksum(w, n, mid, crc);
  }

  /** After intact records, a store record cut off inside its length field,
      or whose length field runs past the end of the file, makes replay fail
      rather than stop. */
  lemma ReplayFailsOnTruncatedPayload(w: seq<Byte>, ops: seq<WalOp>, index: map<nat, nat>, crc: ChecksumFn)
    requires ValidOps(ops) && OpsSize(ops) <= |w| && w[..OpsSize(ops)] == EncodeOps(ops, crc)
    requires var n := OpsSize(ops); n + 9 <= |w| && w[n] == STORE_MARKER
    requires var n := OpsSize(ops); n + 13 > |w| || n + 13 + LeValue(w[n + 9..n + 13]) > |w|
    ensures Replay(w, index, 0, |w|, crc) == Failure(UnexpectedEof)
  {
    var n, mid := OpsSize(ops), ApplyOps(ops, index, 0);
    ReplayAfterPrefix(w, ops, index, crc);
    ReplayFailsAt(w, n, mid, crc);
  }

  /** Concatenating valid operation sequences gives a valid one. */
  lemma ValidOpsAppend(a: seq<WalOp>, b: seq<WalOp>)
    requires ValidOps(a) && ValidOps(b)
    ensures ValidOps(a + b)
  {
    forall i | 0 <= i < |a + b|
      ensures ValidOp((a + b)[i])
    {
      if i < |a| { assert (a + b)[i] == a[i]; } else { assert (a + b)[i] == b[i - |a|]; }
    }
  }

  /** Encoding is a homomorphism: the encoding of `a + b` is the encoding
      of `a` followed by that of `b`. */
  lemma {:induction false} EncodeOpsAppend(a: seq<WalOp>, b: seq<WalOp>, crc: ChecksumFn)
    requires ValidOps(a) && ValidOps(b) && ValidOps(a + b)
    ensures EncodeOps(a + b, crc) == EncodeOps(a, crc) + EncodeOps(b, crc)
    decreases |a|
  {
    if |a| == 0 {
      assert a + b == b;
    } else {
      var t := a[1..];
      assert (a + b)[0] == a[0];
      assert (a + b)[1..] == t + b;
      ValidOpsTail(a);
      ValidOpsTail(a + b);
      EncodeOpsAppend(t, b, crc);
    }
  }

  /** Applying `a + b` applies `a` and then `b`, the latter starting where
      the records of `a` end. */
  lemma {:induction false} ApplyOpsAppend(a: seq<WalOp>, b: seq<WalOp>, index: map<nat, nat>, pos: nat)
    ensures ApplyOps(a + b, index, pos) == ApplyOps(b, ApplyOps(a, index, pos), pos + OpsSize(a))
    decreases |a|
  {
    if |a| == 0 {
      assert a + b == b;
    } else {
      assert (a + b)[0] == a[0];
      assert (a + b)[1..] == a[1..] + b;
      ApplyOpsAppend(a[1..], b, ApplyOp(a[0], index, pos), pos + OpSize(a[0]));
    }
  }

  // ---------------------------------------------------------------------
  // Snapshot file
  // ---------------------------------------------------------------------

  /** `b"VSNP"`. */
  const SNAPSHOT_MAGIC: seq<Byte> := [86, 83, 78, 80]
  const SNAPSHOT_VERSION: Byte := 1
  /** `magic(4) + version(1) + wal_pos(8) + count(8)`. */
  const SNAPSHOT_HEADER_SIZE: nat := 21
  /** Header plus the trailing CRC: the smallest valid snapshot. */
  const SNAPSHOT_MIN_SIZE: nat := 25
  /** Each entry is `id(8) | offset(8)`. */
  const SNAPSHOT_ENTRY_SIZE: nat := 16

  datatype SnapshotError =
    | NotFound
    | TooSmall
    | InvalidMagic
    | UnsupportedVersion
    | CountExceedsData
    | SizeMismatch
    | CrcMismatch

  /** Ids, offsets and the entry count all fit in a `u64`. */
  predicate ValidIndex(index: map<nat, nat>) {
    (forall k | k in index :: IsU64(k) && IsU64(index[k])) && |index| <= U64_MAX
  }

  /** `order` lists every key of `index` exactly once: the hash map's
      iteration order, which the model leaves open. */
  predicate IsEnumeration(order: seq<nat>, index: map<nat, nat>) {
    |order| == |index| &&
    (forall i, j | 0 <= i < j < |order| :: order[i] != order[j]) &&
    (forall k | k in order :: k in index) &&
    (forall k | k in index :: k in order)
  }

  /** Every listed key is in the index, and keys and offsets fit in a `u64`. */
  predicate Encodable(index: map<nat, nat>, order: seq<nat>) {
    forall k | k in order :: k in index && IsU64(k) && IsU64(index[k])
  }

  function EncodeEntries(index: map<nat, nat>, order: seq<nat>): (r: seq<Byte>)
    requires Encodable(index, order)
    ensures |r| == SNAPSHOT_ENTRY_SIZE * |order|
  {
    if |order| == 0 then []
    else LeU64(order[0]) + LeU64(index[order[0]]) + EncodeEntries(index, order[1..])
  }

  function SnapshotBody(index: map<nat, nat>, order: seq<nat>, walPos: nat): (r: seq<Byte>)
    requires ValidIndex(index) && IsEnumeration(order, index) && IsU64(walPos)
    ensures |r| == SNAPSHOT_HEADER_SIZE + SNAPSHOT_ENTRY_SIZE * |order|
  {
    SNAPSHOT_MAGIC + [SNAPSHOT_VERSION] + LeU64(walPos) + LeU64(|order|) + EncodeEntries(index, order)
  }

  /** The bytes `create_snapshot` writes: header, entries in iteration
      order, then the CRC of everything before it. */
  function SnapshotBytes(index: map<nat, nat>, order: seq<nat>, walPos: nat, crc: ChecksumFn): (r: seq<Byte>)
    requires ValidIndex(index) && IsEnumeration(order, index) && IsU64(walPos)
    ensures |r| == SNAPSHOT_MIN_SIZE + SNAPSHOT_ENTRY_SIZE * |index|
  {
    var body := SnapshotBody(index, order, walPos);
    body + LeU32(crc(body))
  }

  /** Inserts `count` entries, in file order, from the front of `entries`;
      a later entry for the same id overrides an earlier one. */
  function DecodeEntries(entries: seq<Byte>, count: nat, acc: map<nat, nat>): map<nat, nat>
    requires |entries| == SNAPSHOT_ENTRY_SIZE * count
    decreases count
  {
    if count == 0 then acc
    else DecodeEntries(entries[16..], count - 1, acc[LeValue(entries[..8]) := LeValue(entries[8..16])])
  }

  /** `load_snapshot`: the checks in the source's order, then the entries.
      `None` stands for a missing snapshot file. */
  function LoadSnapshot(file: Option<seq<Byte>>, crc: ChecksumFn): (r: Result<(map<nat, nat>, nat), SnapshotError>)
  {
    match file
    case None => Failure(NotFound)
    case Some(data) =>
      if |data| < SNAPSHOT_MIN_SIZE then Failure(TooSmall)
      else if data[..4] != SNAPSHOT_MAGIC then Failure(InvalidMagic)
      else if data[4] != SNAPSHOT_VERSION then Failure(UnsupportedVersion)
      else
        var walPos := LeValue(data[5..13]);
        var count := LeValue(data[13..21]);
        if count > (|data| - SNAPSHOT_MIN_SIZE) / SNAPSHOT_ENTRY_SIZE then Failure(CountExceedsData)
        else if |data| != SNAPSHOT_HEADER_SIZE + SNAPSHOT_ENTRY_SIZE * count + 4 then Failure(SizeMismatch)
        else if LeValue(data[|data| - 4..]) != crc(data[..|data| - 4]) then Failure(CrcMismatch)
        else Success((DecodeEntries(data[SNAPSHOT_HEADER_SIZE..|data| - 4], count, map[]), walPos))
  }

  /** The checks `load_snapshot` makes, each as the error it reports: a
      file shorter than 25 bytes, a wrong magic or version, an entry count
      the file cannot hold, a size other than 25 + 16 * count, and a CRC
      mismatch. A snapshot that passes them all is loaded. */
  lemma LoadSnapshotChecks(data: seq<Byte>, crc: ChecksumFn)
    ensures LoadSnapshot(None, crc) == Failure(NotFound)
    ensures |data| < SNAPSHOT_MIN_SIZE <==> LoadSnapshot(Some(data), crc) == Failure(TooSmall)
    ensures |data| >= SNAPSHOT_MIN_SIZE ==>
              (data[..4] != SNAPSHOT_MAGIC <==> LoadSnapshot(Some(data), crc) == Failure(InvalidMagic))
    ensures |data| >= SNAPSHOT_MIN_SIZE && data[..4] == SNAPSHOT_MAGIC ==>
              (data[4] != SNAPSHOT_VERSION <==> LoadSnapshot(Some(data), crc) == Failure(UnsupportedVersion))
    ensures LoadSnapshot(Some(data), crc).Success? <==>
              |data| >= SNAPSHOT_MIN_SIZE &&
              data[..4] == SNAPSHOT_MAGIC && data[4] == SNAPSHOT_VERSION &&
              |data| == SNAPSHOT_MIN_SIZE + SNAPSHOT_ENTRY_SIZE * LeValue(data[13..21]) &&
              LeValue(data[|data| - 4..]) == crc(data[..|data| - 4])
  {
  }

  /** Inserting the listed keys one by one, each with its value in `index`. */
  function InsertAll(acc: map<nat, nat>, order: seq<nat>, index: map<nat, nat>): (r: map<nat, nat>)
    requires forall k | k in order :: k in index
    ensures r.Keys == acc.Keys + (set k | k in order)
    ensures forall k | k in r :: r[k] == (if k in order then index[k] else acc[k])
    decreases |order|
  {
    if |order| == 0 then acc
    else InsertAll(acc[order[0] := index[order[0]]], order[1..], index)
  }

  /** Decoding the encoded entries inserts the listed keys in order. */
  lemma {:induction false} DecodeEncodedEntries(index: map<nat, nat>, order: seq<nat>, acc: map<nat, nat>)
    requires Encodable(index, order)
    ensures DecodeEntries(EncodeEntries(index, order), |order|, acc) == InsertAll(acc, order, index)
    decreases |order|
  {
    if |order| > 0 {
      var k := order[0];
      var e := EncodeEntries(index, order);
      var tail := EncodeEntries(index, order[1..]);
      assert e == LeU64(k) + LeU64(index[k]) + tail;
      assert e[..8] == LeU64(k);
      assert e[8..16] == LeU64(index[k]);
      assert e[16..] == tail;
      DecodeEncodedEntries(index, order[1..], acc[k := index[k]]);
    }
  }

  /** The fields of a snapshot header, read back from its bytes. */
  lemma HeaderFields(magic: seq<Byte>, version: Byte, walPos: seq<Byte>, count: seq<Byte>, entries: seq<Byte>, check: seq<Byte>)
    requires |magic| == 4 && |walPos| == 8 && |count| == 8
    ensures var data := magic + [version] + walPos + count + entries + check;
            data[..4] == magic && data[4] == version && data[5..13] == walPos && data[13..21] == count
  {
    var data := magic + [version] + walPos + count + entries + check;
    assert data[..4] == magic by {
      assert forall k | 0 <= k < 4 :: data[k] == magic[k];
    }
    assert data[5..13] == walPos by {
      assert forall k | 5 <= k < 13 :: data[k] == walPos[k - 5];
    }
    assert data[13..21] == count by {
      assert forall k | 13 <= k < 21 :: data[k] == count[k - 13];
    }
  }

  /** Where `SnapshotBytes` puts the header fields. */
  lemma SnapshotHeaderLayout(index: map<nat, nat>, order: seq<nat>, walPos: nat, crc: ChecksumFn)
    requires ValidIndex(index) && IsEnumeration(order, index) && IsU64(walPos)
    ensures var data := SnapshotBytes(index, order, walPos, crc);
            data[..4] == SNAPSHOT_MAGIC && data[4] == SNAPSHOT_VERSION &&
            data[5..13] == LeU64(walPos) && data[13..21] == LeU64(|order|)
  {
    HeaderFields(SNAPSHOT_MAGIC, SNAPSHOT_VERSION, LeU64(walPos), LeU64(|order|),
                 EncodeEntries(index, order), LeU32(crc(SnapshotBody(index, order, walPos))));
  }

  /** Where `SnapshotBytes` puts the entries and the CRC. */
  lemma SnapshotBodyLayout(index: map<nat, nat>, order: seq<nat>, walPos: nat, crc: ChecksumFn)
    requires ValidIndex(index) && IsEnumeration(order, index) && IsU64(walPos)
    ensures var data := SnapshotBytes(index, order, walPos, crc);
            data[SNAPSHOT_HEADER_SIZE..|data| - 4] == EncodeEntries(index, order) &&
            LeValue(data[|data| - 4..]) == crc(data[..|data| - 4])
  {
    var body := SnapshotBody(index, order, walPos);
    var data := SnapshotBytes(index, order, walPos, crc);
    var header := SNAPSHOT_MAGIC + [SNAPSHOT_VERSION] + LeU64(walPos) + LeU64(|order|);
    assert body == header + EncodeEntries(index, order);
    assert data[..|data| - 4] == body;
    assert data[|data| - 4..] == LeU32(crc(body));
  }

  /** A file that passes every check loads as its decoded entries and the
      WAL position of its header. */
  lemma LoadWellFormed(data: seq<Byte>, count: nat, crc: ChecksumFn)
    requires |data| == SNAPSHOT_MIN_SIZE + SNAPSHOT_ENTRY_SIZE * count
    requires data[..4] == SNAPSHOT_MAGIC && data[4] == SNAPSHOT_VERSION
    requires LeValue(data[13..21]) == count
    requires LeValue(data[|data| - 4..]) == crc(data[..|data| - 4])
    ensures LoadSnapshot(Some(data), crc) ==
            Success((DecodeEntries(data[SNAPSHOT_HEADER_SIZE..|data| - 4], count, map[]), LeValue(data[5..13])))
  {
    assert (|data| - SNAPSHOT_MIN_SIZE) / SNAPSHOT_ENTRY_SIZE == count;
  }

  /** Inserting every key of `index` into an empty map rebuilds `index`. */
  lemma InsertAllRebuilds(order: seq<nat>, index: map<nat, nat>)
    requires forall k | k in order :: k in index
    requires forall k | k in index :: k in order
    ensures InsertAll(map[], order, index) == index
  {
    var r := InsertAll(map[], order, index);
    assert r.Keys == index.Keys;
  }

  /** Round trip: loading the bytes `create_snapshot` writes gives back the
      same id→offset map and WAL position. */
  lemma SnapshotRoundTrip(index: map<nat, nat>, order: seq<nat>, walPos: nat, crc: ChecksumFn)
    requires ValidIndex(index) && IsEnumeration(order, index) && IsU64(walPos)
    ensures LoadSnapshot(Some(SnapshotBytes(index, order, walPos, crc)), crc) == Success((index, walPos))
  {
    var data := SnapshotBytes(index, order, walPos, crc);
    SnapshotHeaderLayout(index, order, walPos, crc);
    SnapshotBodyLayout(index, order, walPos, crc);
    LoadWellFormed(data, |order|, crc);
    DecodeEncodedEntries(index, order, map[]);
    InsertAllRebuilds(order, index);
  }

  // ---------------------------------------------------------------------
  // The storage's write path and recovery
  // ---------------------------------------------------------------------

  /** 10 MiB of WAL growth since the last snapshot. */
  const DEFAULT_SNAPSHOT_THRESHOLD: nat := 10 * 1024 * 1024

  /** The storage state: the WAL file, the in-memory index, the in-memory
      write position, and the WAL position of the last snapshot. */
  datatype LogStore = LogStore(wal: seq<Byte>, index: map<nat, nat>, writePos: nat, lastSnapshotPos: nat)

  datatype StoreError = PayloadTooLarge

  /** `store`, with the payload already serialised to bytes. */
  function Store(s: LogStore, id: nat, payload: seq<Byte>, crc: ChecksumFn): (r: Result<LogStore, StoreError>)
    requires IsU64(id)
    ensures r.Failure? <==> |payload| > U32_MAX
    ensures r.Success? ==>
              r.value.writePos == s.writePos + STORE_OVERHEAD + |payload| &&
              r.value.index.Keys == s.index.Keys + {id} &&
              r.value.index[id] == s.writePos + LEN_FIELD_OFFSET &&
              (forall k | k in s.index && k != id :: r.value.index[k] == s.index[k]) &&
              |r.value.wal| == |s.wal| + STORE_OVERHEAD + |payload| &&
              r.value.lastSnapshotPos == s.lastSnapshotPos
  {
    if |payload| > U32_MAX then Failure(PayloadTooLarge)
    else
      var rec := OpRecord(StoreOp(id, payload), crc);
      Success(LogStore(s.wal + rec, s.index[id := s.writePos + LEN_FIELD_OFFSET],
                       s.writePos + |rec|, s.lastSnapshotPos))
  }

  /** `delete`: appends a delete record; the position advances with
      `fetch_add`, which wraps. */
  function Delete(s: LogStore, id: nat, crc: ChecksumFn): (r: LogStore)
    requires IsU64(id) && IsU64(s.writePos)
    ensures s.writePos + DELETE_RECORD_SIZE <= U64_MAX ==> r.writePos == s.writePos + DELETE_RECORD_SIZE
    ensures r.index.Keys == s.index.Keys - {id}
    ensures forall k | k in r.index :: r.index[k] == s.index[k]
    ensures |r.wal| == |s.wal| + DELETE_RECORD_SIZE
  {
    LogStore(s.wal + OpRecord(DeleteOp(id), crc), s.index - {id},
             WrappingAddU64(s.writePos, DELETE_RECORD_SIZE), s.lastSnapshotPos)
  }

  /** `should_create_snapshot`. */
  function ShouldCreateSnapshot(s: LogStore): (r: bool)
    ensures r <==> s.writePos >= s.lastSnapshotPos + DEFAULT_SNAPSHOT_THRESHOLD
  {
    SaturatingSub(s.writePos, s.lastSnapshotPos) >= DEFAULT_SNAPSHOT_THRESHOLD
  }

  /** `create_snapshot`: the snapshot records the WAL's length, and so does
      the store's last-snapshot position. */
  function CreateSnapshot(s: LogStore, order: seq<nat>, crc: ChecksumFn): (r: (seq<Byte>, LogStore))
    requires ValidIndex(s.index) && IsEnumeration(order, s.index) && IsU64(|s.wal|)
    ensures LoadSnapshot(Some(r.0), crc) == Success((s.index, |s.wal|))
    ensures r.1 == s.(lastSnapshotPos := |s.wal|)
  {
    SnapshotRoundTrip(s.index, order, |s.wal|, crc);
    (SnapshotBytes(s.index, order, |s.wal|, crc), s.(lastSnapshotPos := |s.wal|))
  }

  /** The start-up path of `new`: load the snapshot if it is valid and
      replay only the WAL after its position, otherwise replay the whole
      WAL. Gives the index and the last-snapshot position. */
  function Recover(wal: seq<Byte>, snapshot: Option<seq<Byte>>, crc: ChecksumFn): (r: Result<(map<nat, nat>, nat), IoError>)
    ensures LoadSnapshot(snapshot, crc).Failure? ==>
              r == (var full := Replay(wal, map[], 0, |wal|, crc);
                    if full.Success? then Success((full.value, 0)) else Failure(full.error))
  {
    var loaded := LoadSnapshot(snapshot, crc);
    if loaded.Success? then
      var replayed :- Replay(wal, loaded.value.0, loaded.value.1, |wal|, crc);
      Success((replayed, loaded.value.1))
    else
      var replayed :- Replay(wal, map[], 0, |wal|, crc);
      Success((replayed, 0))
  }

  /** The WAL of `s` is the encoding of `ops` and the index is what those
      operations leave; the write position is the WAL's length. */
  ghost predicate Consistent(s: LogStore, ops: seq<WalOp>, crc: ChecksumFn) {
    ValidOps(ops) &&
    s.wal == EncodeOps(ops, crc) &&
    s.writePos == |s.wal| &&
    s.index == ApplyOps(ops, map[], 0)
  }

  /** A new store is consistent with no operations. */
  lemma EmptyStoreConsistent(crc: ChecksumFn)
    ensures Consistent(LogStore([], map[], 0, 0), [], crc)
  {
  }

  /** Appending one operation appends its record. */
  lemma EncodeOpsSnoc(ops: seq<WalOp>, op: WalOp, crc: ChecksumFn)
    requires ValidOps(ops) && ValidOp(op)
    ensures ValidOps(ops + [op])
    ensures EncodeOps(ops + [op], crc) == EncodeOps(ops, crc) + OpRecord(op, crc)
  {
    assert ValidOps([op]);
    ValidOpsAppend(ops, [op]);
    EncodeOpsAppend(ops, [op], crc);
    assert EncodeOps([op], crc) == OpRecord(op, crc) + EncodeOps([], crc);
  }

  /** Appending one operation applies it last, at the end of the others'
      records. */
  lemma ApplyOpsSnoc(ops: seq<WalOp>, op: WalOp, index: map<nat, nat>, pos: nat)
    ensures ApplyOps(ops + [op], index, pos) == ApplyOp(op, ApplyOps(ops, index, pos), pos + OpsSize(ops))
  {
    ApplyOpsAppend(ops, [op], index, pos);
    assert [op][1..] == [];
  }

  /** A successful `store` keeps the WAL and the index in step. */
  lemma StoreKeepsConsistent(s: LogStore, ops: seq<WalOp>, id: nat, payload: seq<Byte>, crc: ChecksumFn)
    requires Consistent(s, ops, crc) && IsU64(id) && |payload| <= U32_MAX
    ensures Store(s, id, payload, crc).Success?
    ensures Consistent(Store(s, id, payload, crc).value, ops + [StoreOp(id, payload)], crc)
  {
    EncodeOpsSnoc(ops, StoreOp(id, payload), crc);
    ApplyOpsSnoc(ops, StoreOp(id, payload), map[], 0);
  }

  /** A `delete` that does not wrap the write position keeps the WAL and the
      index in step. */
  lemma DeleteKeepsConsistent(s: LogStore, ops: seq<WalOp>, id: nat, crc: ChecksumFn)
    requires Consistent(s, ops, crc) && IsU64(id) && s.writePos + DELETE_RECORD_SIZE <= U64_MAX
    ensures Consistent(Delete(s, id, crc), ops + [DeleteOp(id)], crc)
  {
    var r := Delete(s, id, crc);
    EncodeOpsSnoc(ops, DeleteOp(id), crc);
    assert r.wal == EncodeOps(ops + [DeleteOp(id)], crc);
    ApplyOpsSnoc(ops, DeleteOp(id), map[], 0);
  }

  /** Replaying a consistent store's whole WAL rebuilds its index. */
  lemma FullReplayRebuildsIndex(s: LogStore, ops: seq<WalOp>, crc: ChecksumFn)
    requires Consistent(s, ops, crc)
    ensures Replay(s.wal, map[], 0, |s.wal|, crc) == Success(s.index)
  {
    ReplayEncoded([], ops, map[], crc);
    assert [] + EncodeOps(ops, crc) == EncodeOps(ops, crc);
  }

  /** A consistent store's WAL extends that of any earlier consistent
      state by the encoding of the later operations. */
  lemma WalExtends(s: LogStore, before: seq<WalOp>, s': LogStore, after: seq<WalOp>, crc: ChecksumFn)
    requires Consistent(s, before, crc) && Consistent(s', before + after, crc) && ValidOps(after)
    ensures s'.wal == s.wal + EncodeOps(after, crc)
  {
    EncodeOpsAppend(before, after, crc);
  }

  /** ... and its index is the earlier index with the later operations
      applied from the end of the earlier WAL. */
  lemma IndexExtends(s: LogStore, before: seq<WalOp>, s': LogStore, after: seq<WalOp>, crc: ChecksumFn)
    requires Consistent(s, before, crc) && Consistent(s', before + after, crc)
    ensures s'.index == ApplyOps(after, s.index, |s.wal|)
  {
    ApplyOpsAppend(before, after, map[], 0);
  }

  /** With a valid snapshot, recovery replays the WAL from the snapshot's
      position onto the snapshot's index. */
  lemma RecoverUsesSnapshot(wal: seq<Byte>, snapshot: Option<seq<Byte>>, index: map<nat, nat>, walPos: nat, crc: ChecksumFn)
    requires LoadSnapshot(snapshot, crc) == Success((index, walPos))
    requires Replay(wal, index, walPos, |wal|, crc).Success?
    ensures Recover(wal, snapshot, crc) == Success((Replay(wal, index, walPos, |wal|, crc).value, walPos))
  {
  }

  /** Crash recovery: a snapshot taken when the store was consistent with
      `before`, followed by the operations `after`, recovers the index of
      the store consistent with `before + after`, and remembers the
      snapshot's position. */
  lemma RecoverFromSnapshot(s: LogStore, before: seq<WalOp>, order: seq<nat>, s': LogStore, after: seq<WalOp>, crc: ChecksumFn)
    requires Consistent(s, before, crc) && ValidIndex(s.index) && IsEnumeration(order, s.index) && IsU64(|s.wal|)
    requires Consistent(s', before + after, crc) && ValidOps(after)
    ensures Recover(s'.wal, Some(CreateSnapshot(s, order, crc).0), crc) == Success((s'.index, |s.wal|))
  {
    var snap := CreateSnapshot(s, order, crc).0;
    WalExtends(s, before, s', after, crc);
    IndexExtends(s, before, s', after, crc);
    ReplayEncoded(s.wal, after, s.index, crc);
    RecoverUsesSnapshot(s'.wal, Some(snap), s.index, |s.wal|, crc);
  }
}
