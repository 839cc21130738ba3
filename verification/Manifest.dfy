/** Manifests: what they must satisfy, how an upload makes one, and
    reconstruction of a file from one (manifest/manifest.go). */
module Manifest {
  import opened Prelude
  import opened FileId
  import opened ReedSolomon
  import opened Erasure

  const MAX_SHARD_COUNT: int := 256
  const V1 := "meshweb-manifest/1"
  const V2 := "meshweb-manifest/2"

  datatype FileManifest = FileManifest(
    version: string, fileId: string, fileName: string, fileSize: int, originalSize: int, dataShards: int, parityShards: int,
    minShards: int, blockSize: int, sha256: Digest, shardPaths: seq<string>, createdAt: int, shardHashes: seq<Digest>)

  datatype Problem =
    | BadVersion | BadFileId | NoFileName | BadFileSize | BadOriginalSize | BadShardCounts | BadMinShards | BadBlockSize
    | BadSha256 | BadPathCount | BadPath | BadCreatedAt | BadHashCount | BadShardSha256
    | NotEnoughShards | IndexOutOfRange | NoShardFile | Decoding(error: Error) | WrongDigest

  predicate IsSha256(d: Digest) {
    |d| == 64 && forall i :: 0 <= i < 64 ==> '0' <= d[i] <= '9' || 'a' <= d[i] <= 'f' || 'A' <= d[i] <= 'F'
  }

  /** A plain file name: one path element, neither "." nor "..". */
  predicate IsFileName(p: string) {
    p != "" && '/' !in p && p != "." && p != ".."
  }

  /** The first thing wrong with a manifest, checked in this order. */
  function Validate(m: FileManifest): Option<Problem> {
    if m.version != V1 && m.version != V2 then Some(BadVersion)
    else if !ValidFileId(m.fileId) then Some(BadFileId)
    else if m.fileName == "" then Some(NoFileName)
    else if m.fileSize < 0 then Some(BadFileSize)
    else if m.originalSize < 0 || m.originalSize != m.fileSize then Some(BadOriginalSize)
    else if m.dataShards <= 0 || m.parityShards <= 0 || m.dataShards + m.parityShards > MAX_SHARD_COUNT then Some(BadShardCounts)
    else if m.minShards != m.dataShards then Some(BadMinShards)
    else if m.blockSize <= 0 || m.blockSize > MAX_BLOCK_SIZE then Some(BadBlockSize)
    else if !IsSha256(m.sha256) then Some(BadSha256)
    else if |m.shardPaths| != m.dataShards + m.parityShards then Some(BadPathCount)
    else if exists i :: 0 <= i < |m.shardPaths| && !IsFileName(m.shardPaths[i]) then Some(BadPath)
    else if m.version == V1 then None
    else if m.createdAt <= 0 then Some(BadCreatedAt)
    else if |m.shardHashes| != m.dataShards + m.parityShards then Some(BadHashCount)
    else if exists i :: 0 <= i < |m.shardHashes| && !IsSha256(m.shardHashes[i]) then Some(BadShardSha256)
    else None
  }

  /** What a valid manifest promises: a plain identifier and plain shard file names, one for each of at most 256 shards with
      parity among them, sizes and block size within limits, well-formed digests, and in version 2 one for every shard.
      Everything that promises this is valid. */
  lemma ValidExactly(m: FileManifest)
    ensures Validate(m) == None <==>
      (&& (m.version == V1 || m.version == V2) && ValidFileId(m.fileId) && m.fileName != ""
       && 0 <= m.fileSize == m.originalSize && 1 <= m.dataShards == m.minShards && 1 <= m.parityShards && m.dataShards + m.parityShards <= 256
       && 1 <= m.blockSize <= 64 * 1024 * 1024 && IsSha256(m.sha256)
       && |m.shardPaths| == m.dataShards + m.parityShards
       && (forall p :: p in m.shardPaths ==> p != "" && p != "." && p != ".." && '/' !in p)
       && (m.version == V2 ==> m.createdAt > 0 && |m.shardHashes| == |m.shardPaths| && forall d :: d in m.shardHashes ==> IsSha256(d)))
  {
    hide IsSha256, ValidFileId;
    forall i | 0 <= i < |m.shardPaths| ensures m.shardPaths[i] in m.shardPaths { }
    forall i | 0 <= i < |m.shardHashes| ensures m.shardHashes[i] in m.shardHashes { }
    assert V1[17] != V2[17];
    assert (forall p :: p in m.shardPaths ==> IsFileName(p)) <==> !exists i :: 0 <= i < |m.shardPaths| && !IsFileName(m.shardPaths[i]);
    assert (forall d :: d in m.shardHashes ==> IsSha256(d)) <==> !exists i :: 0 <= i < |m.shardHashes| && !IsSha256(m.shardHashes[i]);
  }

  // ----- shard file names -----

  function Digit(d: nat): char
    requires d < 10
  {
    "0123456789"[d]
  }

  function Decimal(n: nat): (s: string)
    ensures s != "" && forall i :: 0 <= i < |s| ==> '0' <= s[i] <= '9'
    ensures n >= 10 <==> |s| >= 2
    ensures n > 0 ==> s[0] != '0'
  {
    if n < 10 then [Digit(n)] else Decimal(n / 10) + [Digit(n % 10)]
  }

  /** "shard." and the number in at least two digits. */
  function ShardName(i: nat): string {
    "shard." + (if i < 10 then "0" + Decimal(i) else Decimal(i))
  }

  lemma {:induction false} DecimalInjective(a: nat, b: nat)
    requires Decimal(a) == Decimal(b)
    ensures a == b
  {
    var s, t := Decimal(a), Decimal(b);
    LastDigit(a);
    LastDigit(b);
    DigitInjective(a % 10, b % 10);
    if a >= 10 {
      DecimalInjective(a / 10, b / 10);
    }
  }

  lemma LastDigit(n: nat)
    ensures var s := Decimal(n);
      s[|s| - 1] == Digit(n % 10) && (n >= 10 ==> s[..|s| - 1] == Decimal(n / 10))
  {
  }

  lemma DigitInjective(a: nat, b: nat)
    requires a < 10 && b < 10
    ensures Digit(a) == Digit(b) ==> a == b
  {
  }

  /** No two shards share a file name, and every name is a plain file name. */
  lemma ShardNamesDiffer(a: nat, b: nat)
    ensures ShardName(a) == ShardName(b) ==> a == b
    ensures IsFileName(ShardName(a))
  {
    if ShardName(a) == ShardName(b) {
      var s, t := ShardName(a)[6..], ShardName(b)[6..];
      assert s == t;
      assert s == if a < 10 then "0" + Decimal(a) else Decimal(a);
      assert t == if b < 10 then "0" + Decimal(b) else Decimal(b);
      assert s[0] == t[0];
      if a < 10 && b < 10 {
        assert s[1..] == Decimal(a) && t[1..] == Decimal(b);
      }
      DecimalInjective(a, b);
    }
    assert '/' !in "shard.";
  }

  function Value(s: string): int {
    if s == "" then 0 else 10 * Value(s[..|s| - 1]) + (s[|s| - 1] as int - '0' as int)
  }

  lemma {:induction false} DecimalValue(n: nat)
    ensures Value(Decimal(n)) == n
  {
    LastDigit(n);
    DigitValue(n % 10);
    if n >= 10 {
      DecimalValue(n / 10);
    } else {
      assert Decimal(n)[..0] == "";
    }
  }

  lemma DigitValue(d: nat)
    requires d < 10
    ensures Digit(d) as int - '0' as int == d
  {
  }

  /** The file of shard i is called "shard." and i in decimal digits, at least two, with a leading zero only below ten. */
  lemma NameSpellsNumber(i: nat)
    ensures var name := ShardName(i);
      && name[..6] == "shard." && |name| >= 8 && (|name| > 8 ==> name[6] != '0')
      && (forall p :: 6 <= p < |name| ==> '0' <= name[p] <= '9') && Value(name[6..]) == i
  {
    var digits := ShardName(i)[6..];
    DecimalValue(i);
    if i < 10 {
      assert digits == "0" + Decimal(i) && |Decimal(i)| == 1;
      assert digits[..1] == "0" && "0"[..0] == "" && Decimal(i)[..0] == "";
      assert Value("0") == 0;
      assert Value(digits) == 10 * Value(digits[..1]) + (digits[1] as int - '0' as int);
      assert Value(Decimal(i)) == 10 * Value("") + (Decimal(i)[0] as int - '0' as int);
    } else {
      assert digits == Decimal(i);
    }
  }

  // ----- upload -----

  /** The manifest an upload makes: content-addressed, with the digest of every shard file. */
  ghost function UploadManifest(c: Codec, file: Bytes, fileName: string, blockSize: nat, hash: Bytes -> Digest, now: int): FileManifest
    requires c.Valid() && blockSize >= 1
  {
    FileManifest(V2, "sha256-" + hash(file), fileName, |file|, |file|, c.k, c.m, c.k, blockSize, hash(file),
      seq(c.Total(), i requires i >= 0 => ShardName(i)), now,
      seq(c.Total(), i requires 0 <= i < c.Total() => hash(ShardFile(c, file, blockSize, i))))
  }

  method CreateUploadManifest(c: Codec, file: Bytes, fileName: string, blockSize: nat, hash: Bytes -> Digest, now: int)
    returns (r: Result<(FileManifest, seq<Bytes>), Error>)
    requires c.Valid()
    ensures blockSize == 0 ==> r == Err(ShortData)
    ensures blockSize >= 1 ==> r.Ok? && r.value.0 == UploadManifest(c, file, fileName, blockSize, hash, now) && |r.value.1| == c.Total()
    ensures blockSize >= 1 ==> forall i :: 0 <= i < c.Total() ==> r.value.1[i] == ShardFile(c, file, blockSize, i)
  {
    hide ShardFile;
    var encoded, _ := EncodeFile(c, file, blockSize);
    if encoded.Err? {
      return Err(encoded.error);
    }
    var shards := encoded.value;
    var relativePaths: seq<string> := [];
    var shardHashes: seq<Digest> := [];
    for i := 0 to |shards|
      invariant |relativePaths| == |shardHashes| == i
      invariant forall j :: 0 <= j < i ==> relativePaths[j] == ShardName(j) && shardHashes[j] == hash(shards[j])
    {
      relativePaths := relativePaths + [ShardName(i)];
      shardHashes := shardHashes + [hash(shards[i])];
    }
    var m := FileManifest(V2, "sha256-" + hash(file), fileName, |file|, |file|, c.k, c.m, c.k, blockSize, hash(file),
      relativePaths, now, shardHashes);
    assert m == UploadManifest(c, file, fileName, blockSize, hash, now);
    return Ok((m, shards));
  }

  /** An upload checks no limits: its manifest is valid exactly when the parameters were within them. */
  lemma UploadValidates(c: Codec, file: Bytes, fileName: string, blockSize: nat, hash: Bytes -> Digest, now: int)
    requires c.Valid() && blockSize >= 1 && forall x: Bytes :: IsSha256(hash(x))
    ensures Validate(UploadManifest(c, file, fileName, blockSize, hash, now)) == None <==>
      fileName != "" && c.m >= 1 && c.Total() <= MAX_SHARD_COUNT && blockSize <= MAX_BLOCK_SIZE && now > 0
  {
    hide ShardFile, ShardName;
    var m := UploadManifest(c, file, fileName, blockSize, hash, now);
    HashedId(hash(file));
    assert V1[17] != V2[17];
    forall i: nat | i < c.Total() ensures IsFileName(m.shardPaths[i]) { ShardNamesDiffer(i, i); }
    forall i: nat | i < c.Total() ensures IsSha256(m.shardHashes[i]) {
      assert m.shardHashes[i] == hash(ShardFile(c, file, blockSize, i));
    }
  }

  lemma HashedId(d: Digest)
    requires IsSha256(d)
    ensures ValidFileId("sha256-" + d)
  {
    var id := "sha256-" + d;
    forall i | 7 <= i < |id| ensures Alphanumeric(id[i]) { assert id[i] == d[i - 7]; }
  }

  // ----- reconstruction from a manifest -----

  /** The code the library makes for the shard counts of a manifest. */
  ghost predicate CodecFor(c: Codec, m: FileManifest) {
    c.Valid() && (Validate(m) == None ==> c.k == m.dataShards && c.m == m.parityShards)
  }

  predicate InRange(m: FileManifest, idx: int) {
    0 <= idx < |m.shardPaths|
  }

  /** The manifest has a shard of this number and its file exists in the manifest's directory. */
  predicate OnFile(m: FileManifest, dir: map<string, Bytes>, idx: int) {
    InRange(m, idx) && m.shardPaths[idx] in dir
  }

  /** Contents of the listed shards whose files exist. */
  function Files(m: FileManifest, dir: map<string, Bytes>, present: seq<int>): map<int, Bytes> {
    map idx | idx in present && OnFile(m, dir, idx) :: dir[m.shardPaths[idx]]
  }

  /** All numbers are checked before any file is opened. */
  ghost function FromManifest(c: Codec, hash: Bytes -> Digest, m: FileManifest, dir: map<string, Bytes>, present: seq<int>)
    : Result<Bytes, Problem>
    requires CodecFor(c, m)
  {
    match Validate(m)
    case Some(e) => Err(e)
    case None =>
      if |present| < m.minShards then Err(NotEnoughShards)
      else if exists idx :: idx in present && !InRange(m, idx) then Err(IndexOutOfRange)
      else if exists idx :: idx in present && !OnFile(m, dir, idx) then Err(NoShardFile)
      else
        match Decoded(c, Opened(c, Files(m, dir, present)), m.blockSize, m.originalSize)
        case Err(e) => Err(Decoding(e))
        case Ok(bytes) => if hash(bytes) == m.sha256 then Ok(bytes) else Err(WrongDigest)
  }

  /** The paths of the listed shards, unless a number is out of range. */
  method ResolvePaths(m: FileManifest, present: seq<int>) returns (r: Result<map<int, string>, Problem>)
    ensures r == if exists idx :: idx in present && !InRange(m, idx) then Err(IndexOutOfRange)
                 else Ok(map idx | idx in present && InRange(m, idx) :: m.shardPaths[idx])
  {
    var paths: map<int, string> := map[];
    for n := 0 to |present|
      invariant forall idx :: idx in present[..n] ==> InRange(m, idx)
      invariant paths == map idx | idx in present[..n] && InRange(m, idx) :: m.shardPaths[idx]
    {
      assert present[..n + 1] == present[..n] + [present[n]];
      var idx := present[n];
      if idx < 0 || idx >= |m.shardPaths| {
        assert idx in present && !InRange(m, idx);
        return Err(IndexOutOfRange);
      }
      paths := paths[idx := m.shardPaths[idx]];
    }
    assert present[..|present|] == present;
    return Ok(paths);
  }

  /** Opens the files by shard number, up to the first that does not exist. */
  method OpenFiles(m: FileManifest, dir: map<string, Bytes>, present: seq<int>, paths: map<int, string>) returns (r: Result<map<int, Bytes>, Problem>)
    requires forall idx :: idx in present ==> InRange(m, idx)
    requires paths == map idx | idx in present && InRange(m, idx) :: m.shardPaths[idx]
    ensures r == if exists idx :: idx in present && !OnFile(m, dir, idx) then Err(NoShardFile) else Ok(Files(m, dir, present))
  {
    var files: map<int, Bytes> := map[];
    for i := 0 to |m.shardPaths|
      invariant forall idx :: idx in present && idx < i ==> OnFile(m, dir, idx)
      invariant files == map idx | idx in present && idx < i && OnFile(m, dir, idx) :: dir[m.shardPaths[idx]]
    {
      if i in paths {
        if paths[i] !in dir {
          assert i in present && !OnFile(m, dir, i);
          return Err(NoShardFile);
        }
        files := files[i := dir[paths[i]]];
      }
    }
    assert files == Files(m, dir, present);
    return Ok(files);
  }

  method ReconstructFromManifest(c: Codec, hash: Bytes -> Digest, m: FileManifest, dir: map<string, Bytes>, present: seq<int>)
    returns (r: Result<Bytes, Problem>)
    requires CodecFor(c, m)
    ensures r == FromManifest(c, hash, m, dir, present)
  {
    hide Decoded, Validate, InRange, OnFile, Files;
    var problem := Validate(m);
    if problem.Some? {
      return Err(problem.value);
    }
    if |present| < m.minShards {
      return Err(NotEnoughShards);
    }
    var paths := ResolvePaths(m, present);
    if paths.Err? {
      return Err(paths.error);
    }
    var files := OpenFiles(m, dir, present, paths.value);
    if files.Err? {
      return Err(files.error);
    }
    ValidParts(m);
    var decoded := ReconstructFile(c, files.value, m.blockSize, m.originalSize);
    if decoded.Err? {
      return Err(Decoding(decoded.error));
    }
    if hash(decoded.value) != m.sha256 {
      return Err(WrongDigest);
    }
    return Ok(decoded.value);
  }

  lemma ValidParts(m: FileManifest)
    requires Validate(m) == None
    ensures m.dataShards >= 1 && m.parityShards >= 1 && 1 <= m.blockSize && 0 <= m.originalSize
  {
  }

  /** No wrong file comes back, whatever the shard files hold: what reconstruction returns has the manifest's digest and
      size; so, if no other bytes have that digest, it is the file the manifest was made from. */
  lemma OnlyTheFile(c: Codec, hash: Bytes -> Digest, m: FileManifest, dir: map<string, Bytes>, present: seq<int>)
    requires CodecFor(c, m) && FromManifest(c, hash, m, dir, present).Ok?
    ensures var bytes := FromManifest(c, hash, m, dir, present).value;
      && hash(bytes) == m.sha256 && |bytes| == m.originalSize
      && (forall file :: OnlyPreimage(hash, file) && m.sha256 == hash(file) ==> bytes == file)
  {
    hide Decoded;
    ValidParts(m);
    DecodedLength(c, Opened(c, Files(m, dir, present)), m.blockSize, m.originalSize);
  }

  /** Which error a reconstruction that fails reports: the manifest's first, then the count, then a number out of range,
      then a file that does not exist, then the decoder's, then a wrong digest. */
  lemma FailsExactly(c: Codec, hash: Bytes -> Digest, m: FileManifest, dir: map<string, Bytes>, present: seq<int>)
    requires CodecFor(c, m) && Validate(m) == None
    ensures var r := FromManifest(c, hash, m, dir, present);
      var enough := |present| >= m.minShards;
      var inRange := forall i :: i in present ==> 0 <= i < |m.shardPaths|;
      var onFile := forall i :: i in present && 0 <= i < |m.shardPaths| ==> m.shardPaths[i] in dir;
      && (r == Err(NotEnoughShards) <==> !enough)
      && (r == Err(IndexOutOfRange) <==> enough && !inRange)
      && (r == Err(NoShardFile) <==> enough && inRange && !onFile)
      && (r.Ok? || r == Err(WrongDigest) || (r.Err? && r.error.Decoding?) <==> enough && inRange && onFile)
  {
    hide Decoded, Validate;
  }

  /** The distinct shards listed. */
  ghost function Listed(present: seq<int>): set<int> { set i | i in present }

  /** A valid version 2 manifest of this file, kept with this code, under whatever path names. */
  ghost predicate Describes(m: FileManifest, c: Codec, file: Bytes, hash: Bytes -> Digest) {
    && Validate(m) == None && m.version == V2 && c.Valid() && m.dataShards == c.k && m.parityShards == c.m && m.blockSize >= 1
    && m.originalSize == |file| && m.sha256 == hash(file) && |m.shardHashes| == |m.shardPaths| == c.Total() && m.minShards == c.k
    && forall i: nat :: i < c.Total() ==> m.shardHashes[i] == hash(ShardFile(c, file, m.blockSize, i))
  }

  /** Reconstruction from listed shard files that are as the encoder wrote them: the file comes back exactly when the
      list is long enough, names only shards whose files exist and names at least k different ones (any list that is
      long enough and on file will do for an empty file). A list padded with repeats passes the length check and
      fails in the decoder. */
  lemma DescribedReconstructs(m: FileManifest, c: Codec, file: Bytes, hash: Bytes -> Digest, dir: map<string, Bytes>, present: seq<int>)
    requires Describes(m, c, file, hash)
    requires forall i: nat :: i in present && i < c.Total() && m.shardPaths[i] in dir ==> dir[m.shardPaths[i]] == ShardFile(c, file, m.blockSize, i)
    ensures CodecFor(c, m) &&
      var r := FromManifest(c, hash, m, dir, present);
      if |present| >= c.k && (forall idx :: idx in present ==> OnFile(m, dir, idx)) && (file == [] || |Listed(present)| >= c.k)
      then r == Ok(file) else r.Err?
  {
    hide ShardFile, Decoded, Validate;
    if |present| >= c.k && forall idx :: idx in present ==> OnFile(m, dir, idx) {
      var files := Files(m, dir, present);
      RoundTrip(c, file, m.blockSize, files);
      SameIndices(Surviving(c, files), Listed(present));
    }
  }

  /** An upload makes a manifest that describes its file, under the names of the shard files. */
  lemma UploadDescribes(c: Codec, file: Bytes, fileName: string, blockSize: nat, hash: Bytes -> Digest, now: int)
    requires c.Valid() && c.m >= 1 && c.Total() <= MAX_SHARD_COUNT && 1 <= blockSize <= MAX_BLOCK_SIZE
    requires fileName != "" && now > 0 && forall x: Bytes :: IsSha256(hash(x))
    ensures var m := UploadManifest(c, file, fileName, blockSize, hash, now);
      && Describes(m, c, file, hash)
      && m.fileId == "sha256-" + hash(file) && m.fileName == fileName && m.blockSize == blockSize && m.createdAt == now
      && forall i: nat :: i < c.Total() ==> m.shardPaths[i] == ShardName(i)
  {
    hide ShardFile, ShardName, Validate;
    UploadValidates(c, file, fileName, blockSize, hash, now);
  }

  /** Upload, then reconstruct from the shard files that were written. */
  lemma UploadReconstructs(c: Codec, file: Bytes, fileName: string, blockSize: nat, hash: Bytes -> Digest,
                           now: int, dir: map<string, Bytes>, present: seq<int>)
    requires c.Valid() && c.m >= 1 && c.Total() <= MAX_SHARD_COUNT && 1 <= blockSize <= MAX_BLOCK_SIZE
    requires fileName != "" && now > 0 && forall x: Bytes :: IsSha256(hash(x))
    requires forall i: nat :: i in present && i < c.Total() && ShardName(i) in dir ==> dir[ShardName(i)] == ShardFile(c, file, blockSize, i)
    ensures var upload := UploadManifest(c, file, fileName, blockSize, hash, now);
      CodecFor(c, upload) &&
      var r := FromManifest(c, hash, upload, dir, present);
      if |present| >= c.k && (forall idx :: idx in present ==> OnFile(upload, dir, idx)) && (file == [] || |Listed(present)| >= c.k)
      then r == Ok(file) else r.Err?
  {
    hide ShardFile, ShardName, Decoded, Validate, FromManifest;
    UploadDescribes(c, file, fileName, blockSize, hash, now);
    DescribedReconstructs(UploadManifest(c, file, fileName, blockSize, hash, now), c, file, hash, dir, present);
  }

  lemma {:induction false} SameIndices(a: set<nat>, b: set<int>)
    requires forall i: int :: i in b <==> i >= 0 && i in a
    ensures |a| == |b|
  {
    if a != {} {
      var x :| x in a;
      SameIndices(a - {x}, b - {x});
    } else {
      assert forall i :: i !in b;
    }
  }
}
