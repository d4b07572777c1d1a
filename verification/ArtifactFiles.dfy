/**
 Crash-safe artifact files: a data file and a metadata file per artifact, each written to a
 temporary file and renamed into place, data first; the sweep unlinks data first, metadata last.

 The file system is a map from paths to contents, and every operation is a list of atomic file
 steps. A crash stops the list after any of them; renames are atomic, writes are not.
 */
module ArtifactFiles {
  import opened Prelude

  /** Artifact ids are fresh random UUIDs. */
  type Id = string

  datatype Path = DataFile(id: Id, ext: string) | MetaFile(id: Id) | TempFile(n: nat)

  datatype Ref = Ref(id: Id, mime: string, size: nat, createdAt: int, expiresAt: Option<int>)

  /** Metadata on disk: the current layout, or a legacy record without an owner. */
  datatype Metadata = V2(ref: Ref, principal: string, tenant: string) | V1(ref: Ref)

  /** `Torn` is a file whose write did not finish. */
  datatype Content = Raw(bytes: seq<bv8>) | Meta(metadata: Metadata) | Torn

  type Files = map<Path, Content>

  /** Data file extensions, in the order they are tried. */
  const EXTENSIONS: seq<string> :=
    ["", ".aac", ".flac", ".glb", ".gltf", ".jpg", ".m4a", ".mp3", ".mp3", ".mp4", ".ogg", ".pcm", ".png", ".usdz",
     ".wav", ".webm", ".webp", ".zip", ".zip"]

  function MimeToExt(mime: string): (ext: string)
    ensures ext in EXTENSIONS
  {
    assert EXTENSIONS[0] == "" && EXTENSIONS[1] == ".aac" && EXTENSIONS[2] == ".flac" && EXTENSIONS[3] == ".glb";
    assert EXTENSIONS[4] == ".gltf" && EXTENSIONS[5] == ".jpg" && EXTENSIONS[6] == ".m4a" && EXTENSIONS[7] == ".mp3";
    assert EXTENSIONS[9] == ".mp4" && EXTENSIONS[10] == ".ogg" && EXTENSIONS[11] == ".pcm" && EXTENSIONS[12] == ".png";
    assert EXTENSIONS[13] == ".usdz" && EXTENSIONS[14] == ".wav" && EXTENSIONS[15] == ".webm";
    assert EXTENSIONS[16] == ".webp" && EXTENSIONS[17] == ".zip";
    match mime
    case "audio/wav" => ".wav"
    case "audio/mpeg" => ".mp3"
    case "audio/mp3" => ".mp3"
    case "audio/aac" => ".aac"
    case "audio/mp4" => ".m4a"
    case "audio/flac" => ".flac"
    case "audio/ogg" => ".ogg"
    case "audio/pcm" => ".pcm"
    case "image/png" => ".png"
    case "image/jpeg" => ".jpg"
    case "image/webp" => ".webp"
    case "video/mp4" => ".mp4"
    case "video/webm" => ".webm"
    case "application/zip" => ".zip"
    case "application/x-zip-compressed" => ".zip"
    case "model/gltf-binary" => ".glb"
    case "model/gltf+json" => ".gltf"
    case "model/vnd.usdz+zip" => ".usdz"
    case _ => ""
  }

  /** The first existing data file from extension number `i` on; the bare path if there is none. */
  function FindFrom(files: Files, id: Id, i: nat): Path
    requires i <= |EXTENSIONS|
    decreases |EXTENSIONS| - i
  {
    if i == |EXTENSIONS| then DataFile(id, "")
    else if DataFile(id, EXTENSIONS[i]) in files then DataFile(id, EXTENSIONS[i])
    else FindFrom(files, id, i + 1)
  }

  function Find(files: Files, id: Id): Path {
    FindFrom(files, id, 0)
  }

  datatype GetError = NotFound | NotOwned | Corrupt

  datatype Stored = Stored(bytes: seq<bv8>, mime: string)

  function OwnerOf(metadata: Metadata): (string, string) {
    if metadata.V2? then (metadata.principal, metadata.tenant) else ("local", "local")
  }

  /** What a lookup answers. */
  function Lookup(files: Files, id: Id, owner: Principal): Result<Stored, GetError> {
    var path := Find(files, id);
    if path !in files || MetaFile(id) !in files then Err(NotFound)
    else if !files[MetaFile(id)].Meta? then Err(Corrupt)
    else
      var metadata := files[MetaFile(id)].metadata;
      if OwnerOf(metadata) != owner.Identity() then Err(NotOwned)
      else if !files[path].Raw? then Err(Corrupt)
      else Ok(Stored(files[path].bytes, metadata.ref.mime))
  }

  // ---------------------------------------------------------------------
  // File steps
  // ---------------------------------------------------------------------

  datatype FileStep =
    | Create(temp: nat)
    | WriteSome(temp: nat)
    | WriteAll(temp: nat, content: Content)
    | Rename(temp: nat, path: Path)
    | Unlink(path: Path)

  function Do(files: Files, step: FileStep): Files {
    match step {
      case Create(t) => files[TempFile(t) := Torn]
      case WriteSome(t) => files[TempFile(t) := Torn]
      case WriteAll(t, content) => files[TempFile(t) := content]
      case Rename(t, path) => if TempFile(t) in files then (files - {TempFile(t)})[path := files[TempFile(t)]] else files
      case Unlink(path) => files - {path}
    }
  }

  function DoAll(files: Files, steps: seq<FileStep>): Files
    decreases |steps|
  {
    if steps == [] then files else DoAll(Do(files, steps[0]), steps[1..])
  }

  function AtomicWriteSteps(temp: nat, path: Path, content: Content): seq<FileStep> {
    [Create(temp), WriteSome(temp), WriteAll(temp, content), Rename(temp, path)]
  }

  /** Everything a put was given; or an artifact that an earlier version of the server left, without an owner. */
  datatype Put =
    | Put(bytes: seq<bv8>, mime: string, owner: Principal, createdAt: int, ttl: nat)
    | Legacy(bytes: seq<bv8>, mime: string, ext: string, createdAt: int, expires: Option<int>)
  {
    function Expiry(): Option<int> {
      if Put? then Some(createdAt + ttl) else expires
    }

    function OwnerIdentity(): (string, string) {
      if Put? then owner.Identity() else ("local", "local")
    }

    function Ext(): (e: string)
      ensures e in EXTENSIONS
    {
      if Put? then MimeToExt(mime) else if ext in EXTENSIONS then ext else EXTENSIONS[0]
    }
  }

  /** The time has come at which an artifact may go: one time to live after it was put. */
  ghost predicate Due(put: Put, now: int) {
    match put {
      case Put(_, _, _, createdAt, ttl) => now >= createdAt + ttl
      case Legacy(_, _, _, _, expires) => expires.Some? && now >= expires.value
    }
  }

  function MetadataOf(id: Id, put: Put): Metadata {
    var ref := Ref(id, put.mime, |put.bytes|, put.createdAt, put.Expiry());
    if put.Put? then V2(ref, put.owner.id, put.owner.tenant) else V1(ref)
  }

  function PutSteps(id: Id, put: Put, temp: nat, temp': nat): seq<FileStep> {
    AtomicWriteSteps(temp, DataFile(id, put.Ext()), Raw(put.bytes))
    + AtomicWriteSteps(temp', MetaFile(id), Meta(MetadataOf(id, put)))
  }

  predicate Expired(files: Files, id: Id, now: int) {
    && MetaFile(id) in files && files[MetaFile(id)].Meta?
    && var expiry := files[MetaFile(id)].metadata.ref.expiresAt;
       expiry.Some? && expiry.value <= now
  }

  /** The steps that a sweep takes for one metadata file. */
  function SweepOneSteps(files: Files, id: Id, now: int): seq<FileStep> {
    if !Expired(files, id, now) then []
    else
      var path := Find(files, files[MetaFile(id)].metadata.ref.id);
      (if path in files then [Unlink(path)] else []) + [Unlink(MetaFile(id))]
  }

  /** A sweep looks at the metadata files in some order. */
  function SweepSteps(files: Files, order: seq<Id>, now: int): seq<FileStep>
    decreases |order|
  {
    if order == [] then []
    else
      var first := SweepOneSteps(files, order[0], now);
      first + SweepSteps(DoAll(files, first), order[1..], now)
  }

  // ---------------------------------------------------------------------
  // The invariant
  // ---------------------------------------------------------------------

  /** Every visible file is exactly what some put wrote; only temporary files may be torn. */
  ghost predicate Inv(files: Files, puts: map<Id, Put>) {
    && (forall id, ext | DataFile(id, ext) in files ::
          id in puts && ext == puts[id].Ext() && files[DataFile(id, ext)] == Raw(puts[id].bytes))
    && (forall id | MetaFile(id) in files ::
          id in puts && files[MetaFile(id)] == Meta(MetadataOf(id, puts[id])))
  }

  lemma {:induction false} FindFromKnown(files: Files, id: Id, ext: string, i: nat)
    requires i <= |EXTENSIONS| && forall e | DataFile(id, e) in files :: e == ext
    ensures DataFile(id, ext) in files && ext in EXTENSIONS[i..] ==> FindFrom(files, id, i) == DataFile(id, ext)
    ensures DataFile(id, ext) !in files ==> FindFrom(files, id, i) == DataFile(id, "") && DataFile(id, "") !in files
    decreases |EXTENSIONS| - i
  {
    if i == |EXTENSIONS| {
    } else {
      FindFromKnown(files, id, ext, i + 1);
      assert EXTENSIONS[i..] == [EXTENSIONS[i]] + EXTENSIONS[i + 1..];
    }
  }

  /** Looking through the extensions finds the one data file a put wrote, if it is there. */
  lemma FindFinds(files: Files, puts: map<Id, Put>, id: Id)
    requires Inv(files, puts)
    ensures id in puts && DataFile(id, puts[id].Ext()) in files ==>
              Find(files, id) == DataFile(id, puts[id].Ext())
    ensures !(id in puts && DataFile(id, puts[id].Ext()) in files) ==>
              Find(files, id) == DataFile(id, "") && Find(files, id) !in files
  {
    var ext := if id in puts then puts[id].Ext() else "";
    FindFromKnown(files, id, ext, 0);
    assert EXTENSIONS[0..] == EXTENSIONS;
  }

  /** Whether both files of an artifact are in place. */
  predicate Complete(files: Files, puts: map<Id, Put>, id: Id) {
    id in puts && DataFile(id, puts[id].Ext()) in files && MetaFile(id) in files
  }

  /** A lookup answers exactly what was put, refuses strangers, or reports the artifact missing - nothing else. */
  lemma LookupIsExact(files: Files, puts: map<Id, Put>, id: Id, owner: Principal)
    requires Inv(files, puts)
    ensures Lookup(files, id, owner) ==
            if !Complete(files, puts, id) then Err(NotFound)
            else if owner.Identity() != puts[id].OwnerIdentity() then Err(NotOwned)
            else Ok(Stored(puts[id].bytes, puts[id].mime))
  {
    FindFinds(files, puts, id);
  }

  // ---------------------------------------------------------------------
  // Puts
  // ---------------------------------------------------------------------

  /** One more step at the end. */
  lemma {:induction false} DoPrefix(files: Files, steps: seq<FileStep>, k: nat)
    requires k <= |steps|
    ensures k == 0 ==> DoAll(files, steps[..k]) == files
    ensures k > 0 ==> DoAll(files, steps[..k]) == Do(DoAll(files, steps[..k - 1]), steps[k - 1])
    decreases |steps|
  {
    if k > 1 {
      DoPrefix(Do(files, steps[0]), steps[1..], k - 1);
      assert steps[..k][1..] == steps[1..][..k - 1];
      assert steps[..k - 1][1..] == steps[1..][..k - 2];
    } else if k == 1 {
      assert steps[..1][1..] == [];
    }
  }

  /** After any prefix of an atomic write, the target is untouched; after all of it, it holds the content. */
  lemma AtomicWriteIsAtomic(files: Files, temp: nat, path: Path, content: Content, stop: nat)
    requires stop <= 4 && TempFile(temp) !in files && !path.TempFile?
    ensures
      var after := DoAll(files, AtomicWriteSteps(temp, path, content)[..stop]);
      && (stop < 4 ==> after - {TempFile(temp)} == files)
      && (stop == 4 ==> after == files[path := content])
  {
    var steps := AtomicWriteSteps(temp, path, content);
    var s1 := Do(files, steps[0]);
    var s2 := Do(s1, steps[1]);
    var s3 := Do(s2, steps[2]);
    var s4 := Do(s3, steps[3]);
    DoPrefix(files, steps, stop);
    DoPrefix(files, steps, 1);
    DoPrefix(files, steps, 2);
    DoPrefix(files, steps, 3);
  }

  lemma {:induction false} DoAppend(files: Files, a: seq<FileStep>, b: seq<FileStep>)
    ensures DoAll(files, a + b) == DoAll(DoAll(files, a), b)
    decreases |a|
  {
    if a == [] {
      assert a + b == b;
    } else {
      DoAppend(Do(files, a[0]), a[1..], b);
      assert (a + b)[1..] == a[1..] + b;
    }
  }

  /** A put that is stopped after `stop` steps: what it leaves, apart from temporary files. */
  lemma PutStopped(files: Files, id: Id, put: Put, temp: nat, temp': nat, stop: nat)
    requires stop <= 8 && TempFile(temp) !in files && TempFile(temp') !in files && temp != temp'
    ensures
      var data, meta := DataFile(id, put.Ext()), MetaFile(id);
      var after := DoAll(files, PutSteps(id, put, temp, temp')[..stop]) - {TempFile(temp), TempFile(temp')};
      after == if stop < 4 then files
               else if stop < 8 then files[data := Raw(put.bytes)]
               else files[data := Raw(put.bytes)][meta := Meta(MetadataOf(id, put))]
  {
    hide DoAll, Put.Ext;
    var data, meta := DataFile(id, put.Ext()), MetaFile(id);
    var first := AtomicWriteSteps(temp, data, Raw(put.bytes));
    var second := AtomicWriteSteps(temp', meta, Meta(MetadataOf(id, put)));
    if stop < 4 {
      AtomicWriteIsAtomic(files, temp, data, Raw(put.bytes), stop);
      assert (first + second)[..stop] == first[..stop];
      var after := DoAll(files, first[..stop]);
      assert after - {TempFile(temp), TempFile(temp')} == (after - {TempFile(temp)}) - {TempFile(temp')};
    } else {
      AtomicWriteIsAtomic(files, temp, data, Raw(put.bytes), 4);
      assert first[..4] == first;
      var mid := files[data := Raw(put.bytes)];
      AtomicWriteIsAtomic(mid, temp', meta, Meta(MetadataOf(id, put)), stop - 4);
      assert (first + second)[..stop] == first + second[..stop - 4];
      DoAppend(files, first, second[..stop - 4]);
      var after := DoAll(mid, second[..stop - 4]);
      assert after - {TempFile(temp), TempFile(temp')} == (after - {TempFile(temp')}) - {TempFile(temp)};
    }
  }

  // ---------------------------------------------------------------------
  // Sweeps
  // ---------------------------------------------------------------------

  ghost function DataPath(puts: map<Id, Put>, id: Id): Path
    requires id in puts
  {
    DataFile(id, puts[id].Ext())
  }

  /** The files of an artifact. */
  ghost predicate BelongsTo(path: Path, id: Id) {
    !path.TempFile? && path.id == id
  }

  /** What an uninterrupted sweep at `now` removes. */
  ghost predicate Goes(files: Files, puts: map<Id, Put>, id: Id, now: int) {
    MetaFile(id) in files && id in puts && Due(puts[id], now)
  }

  /** What the sweep reads in the metadata is when the artifact is due. */
  lemma ExpiredIsDue(files: Files, puts: map<Id, Put>, id: Id, now: int)
    requires Inv(files, puts)
    ensures Expired(files, id, now) <==> Goes(files, puts, id, now)
  {
  }

  lemma SweepOneUnlinks(files: Files, puts: map<Id, Put>, id: Id, now: int)
    requires Inv(files, puts)
    ensures SweepOneSteps(files, id, now) ==
            if !Expired(files, id, now) then []
            else (if DataPath(puts, id) in files then [Unlink(DataPath(puts, id))] else []) + [Unlink(MetaFile(id))]
  {
    if Expired(files, id, now) {
      FindFinds(files, puts, id);
    }
  }

  /** Sweeping one metadata file, stopped anywhere: at most this artifact's files go, data before metadata. */
  lemma SweepOneStopped(files: Files, puts: map<Id, Put>, id: Id, now: int, stop: nat)
    requires Inv(files, puts) && stop <= |SweepOneSteps(files, id, now)|
    ensures
      var steps := SweepOneSteps(files, id, now);
      var after := DoAll(files, steps[..stop]);
      && after == files - (if stop == 0 then {} else if stop == |steps| then {DataPath(puts, id), MetaFile(id)}
                           else {DataPath(puts, id)})
      && (stop > 0 ==> Expired(files, id, now))
  {
    SweepOneUnlinks(files, puts, id, now);
    var steps := SweepOneSteps(files, id, now);
    if Expired(files, id, now) {
      DoPrefix(files, steps, stop);
      if stop > 0 {
        DoPrefix(files, steps, stop - 1);
      }
      if stop > 1 {
        DoPrefix(files, steps, stop - 2);
      }
    }
  }

  /** What a sweep has removed so far: artifacts among `done` that were expired, and perhaps the data of one more. */
  ghost predicate SweptTo(files: Files, after: Files, puts: map<Id, Put>, now: int) {
    && after.Keys <= files.Keys
    && (forall p <- after :: after[p] == files[p])
    && (forall p <- files.Keys - after.Keys :: !p.TempFile? && Expired(files, p.id, now))
    && (forall id | id in puts && MetaFile(id) in files && MetaFile(id) !in after :: DataPath(puts, id) !in after)
  }

  lemma SweptToKeepsInv(files: Files, after: Files, puts: map<Id, Put>, now: int)
    requires Inv(files, puts) && SweptTo(files, after, puts, now)
    ensures Inv(after, puts)
  {
  }

  lemma SweptToTransitive(files: Files, mid: Files, after: Files, puts: map<Id, Put>, now: int)
    requires SweptTo(files, mid, puts, now) && SweptTo(mid, after, puts, now)
    ensures SweptTo(files, after, puts, now)
  {
    forall p | p in files.Keys - after.Keys ensures !p.TempFile? && Expired(files, p.id, now) {
      if p in mid {
        assert p in mid.Keys - after.Keys;
      } else {
        assert p in files.Keys - mid.Keys;
      }
    }
  }

  lemma SweepOneSweeps(files: Files, puts: map<Id, Put>, id: Id, now: int, stop: nat)
    requires Inv(files, puts) && stop <= |SweepOneSteps(files, id, now)|
    ensures SweptTo(files, DoAll(files, SweepOneSteps(files, id, now)[..stop]), puts, now)
  {
    hide DoAll, Put.Ext;
    SweepOneStopped(files, puts, id, now, stop);
  }

  lemma SweptToReflexive(files: Files, puts: map<Id, Put>, now: int)
    ensures SweptTo(files, files, puts, now)
  {
  }

  /** A sweep stopped anywhere. */
  lemma {:induction false} SweepStopped(files: Files, puts: map<Id, Put>, order: seq<Id>, now: int, stop: nat)
    requires Inv(files, puts) && stop <= |SweepSteps(files, order, now)|
    ensures SweptTo(files, DoAll(files, SweepSteps(files, order, now)[..stop]), puts, now)
    decreases |order|
  {
    hide SweptTo, Inv, SweepOneSteps;
    var steps := SweepSteps(files, order, now);
    if order == [] {
      SweptToReflexive(files, puts, now);
    } else {
      var first := SweepOneSteps(files, order[0], now);
      var mid := DoAll(files, first);
      var rest := SweepSteps(mid, order[1..], now);
      if stop <= |first| {
        SweepOneSweeps(files, puts, order[0], now, stop);
        assert steps[..stop] == first[..stop];
      } else {
        SweepOneSweeps(files, puts, order[0], now, |first|);
        assert first[..|first|] == first;
        SweptToKeepsInv(files, mid, puts, now);
        SweepStopped(mid, puts, order[1..], now, stop - |first|);
        assert steps[..stop] == first + rest[..stop - |first|];
        DoAppend(files, first, rest[..stop - |first|]);
        SweptToTransitive(files, mid, DoAll(mid, rest[..stop - |first|]), puts, now);
      }
    }
  }

  lemma SweepOneDone(files: Files, puts: map<Id, Put>, id: Id, now: int)
    requires Inv(files, puts)
    ensures !Expired(DoAll(files, SweepOneSteps(files, id, now)), id, now)
  {
    hide DoAll, Put.Ext;
    var steps := SweepOneSteps(files, id, now);
    assert steps[..|steps|] == steps;
    SweepOneStopped(files, puts, id, now, |steps|);
  }

  lemma StaysUnexpired(files: Files, after: Files, puts: map<Id, Put>, now: int, id: Id)
    requires SweptTo(files, after, puts, now) && !Expired(files, id, now)
    ensures !Expired(after, id, now)
  {
  }

  /** A sweep that is not stopped leaves no expired metadata file that it looked at. */
  lemma {:induction false} SweepFinishes(files: Files, puts: map<Id, Put>, order: seq<Id>, now: int)
    requires Inv(files, puts)
    ensures var after := DoAll(files, SweepSteps(files, order, now));
            && SweptTo(files, after, puts, now)
            && forall id <- order :: !Expired(after, id, now)
    decreases |order|
  {
    hide SweptTo, Inv, SweepOneSteps, Put.Ext;
    if order == [] {
      SweptToReflexive(files, puts, now);
    } else {
      var first := SweepOneSteps(files, order[0], now);
      var mid := DoAll(files, first);
      SweepOneSweeps(files, puts, order[0], now, |first|);
      assert first[..|first|] == first;
      SweptToKeepsInv(files, mid, puts, now);
      SweepOneDone(files, puts, order[0], now);
      SweepFinishes(mid, puts, order[1..], now);
      DoAppend(files, first, SweepSteps(mid, order[1..], now));
      var after := DoAll(mid, SweepSteps(mid, order[1..], now));
      StaysUnexpired(mid, after, puts, now, order[0]);
      SweptToTransitive(files, mid, after, puts, now);
    }
  }

  /** The metadata file that speaks for a path. */
  function MetaOf(path: Path): Path {
    if path.TempFile? then path else MetaFile(path.id)
  }

  /** `order` lists the artifacts that have metadata. */
  ghost predicate Lists(files: Files, order: seq<Id>) {
    forall id :: id in order <==> MetaFile(id) in files
  }

  /**
   An uninterrupted sweep removes both files of exactly the artifacts that are due, and touches no
   other file - in particular no data file that lost, or never got, its metadata.
   */
  lemma SweepIsExact(files: Files, puts: map<Id, Put>, order: seq<Id>, now: int)
    requires Inv(files, puts) && Lists(files, order)
    ensures
      var after := DoAll(files, SweepSteps(files, order, now));
      && Inv(after, puts)
      && after == (map p | p in files && (p.TempFile? || !Goes(files, puts, p.id, now)) :: files[p])
      && forall id, owner :: Lookup(after, id, owner) ==
           if Goes(files, puts, id, now) then Err(NotFound) else Lookup(files, id, owner)
  {
    forall id ensures Expired(files, id, now) <==> Goes(files, puts, id, now) {
      ExpiredIsDue(files, puts, id, now);
    }
    hide Goes, Expired;
    hide DoAll, SweepSteps, Put.Ext, Lookup;
    var after := DoAll(files, SweepSteps(files, order, now));
    SweepFinishes(files, puts, order, now);
    SweptToKeepsInv(files, after, puts, now);
    forall id | Expired(files, id, now) ensures MetaFile(id) !in after && DataPath(puts, id) !in after {
      assert id in order;
    }
    forall id, owner ensures Lookup(after, id, owner) ==
      if Expired(files, id, now) then Err(NotFound) else Lookup(files, id, owner)
    {
      LookupIsExact(files, puts, id, owner);
      LookupIsExact(after, puts, id, owner);
    }
  }

  // ---------------------------------------------------------------------
  // Runs with crashes
  // ---------------------------------------------------------------------

  /** The disk, and the history of what every started put was given. */
  datatype Store = Store(files: Files, puts: map<Id, Put>)

  /** Each operation stops after `stop` file steps, all of them if it is not interrupted. */
  datatype Op =
    | StoreArtifact(id: Id, put: Put, temp: nat, temp': nat, stop: nat)
    | DeleteExpired(order: seq<Id>, now: int, stop: nat)

  ghost predicate Enabled(s: Store, op: Op) {
    match op {
      case StoreArtifact(id, put, temp, temp', stop) =>
        put.Put? && id !in s.puts && TempFile(temp) !in s.files && TempFile(temp') !in s.files && temp != temp' && stop <= 8
      case DeleteExpired(order, now, stop) =>
        Lists(s.files, order) && stop <= |SweepSteps(s.files, order, now)|
    }
  }

  ghost function Apply(s: Store, op: Op): Store
    requires Enabled(s, op)
  {
    match op {
      case StoreArtifact(id, put, temp, temp', stop) =>
        Store(DoAll(s.files, PutSteps(id, put, temp, temp')[..stop]), s.puts[id := put])
      case DeleteExpired(order, now, stop) =>
        s.(files := DoAll(s.files, SweepSteps(s.files, order, now)[..stop]))
    }
  }

  ghost predicate Run(s: Store, ops: seq<Op>, t: Store)
    decreases |ops|
  {
    if ops == [] then t == s else Enabled(s, ops[0]) && Run(Apply(s, ops[0]), ops[1..], t)
  }

  /** Two disks with the same visible files. */
  ghost predicate SameVisible(a: Files, b: Files) {
    forall p: Path | !p.TempFile? :: (p in a <==> p in b) && (p in a ==> a[p] == b[p])
  }

  lemma PutVisible(files: Files, id: Id, put: Put, temp: nat, temp': nat, stop: nat)
    requires stop <= 8 && TempFile(temp) !in files && TempFile(temp') !in files && temp != temp'
    ensures
      var data, meta := DataFile(id, put.Ext()), MetaFile(id);
      SameVisible(DoAll(files, PutSteps(id, put, temp, temp')[..stop]),
                  if stop < 4 then files
                  else if stop < 8 then files[data := Raw(put.bytes)]
                  else files[data := Raw(put.bytes)][meta := Meta(MetadataOf(id, put))])
  {
    hide DoAll, Put.Ext;
    PutStopped(files, id, put, temp, temp', stop);
    var after := DoAll(files, PutSteps(id, put, temp, temp')[..stop]);
    assert SameVisible(after, after - {TempFile(temp), TempFile(temp')});
  }

  lemma StepKeepsInv(s: Store, op: Op)
    requires Inv(s.files, s.puts) && Enabled(s, op)
    ensures Inv(Apply(s, op).files, Apply(s, op).puts)
  {
    hide DoAll, SweepSteps, Put.Ext;
    match op {
      case StoreArtifact(id, put, temp, temp', stop) =>
        PutVisible(s.files, id, put, temp, temp', stop);
      case DeleteExpired(order, now, stop) =>
        SweepStopped(s.files, s.puts, order, now, stop);
        SweptToKeepsInv(s.files, Apply(s, op).files, s.puts, now);
    }
  }

  lemma {:induction false} RunKeepsInv(s: Store, ops: seq<Op>, t: Store)
    requires Inv(s.files, s.puts) && Run(s, ops, t)
    ensures Inv(t.files, t.puts)
    decreases |ops|
  {
    hide Inv, Enabled, Apply;
    if ops == [] {
    } else {
      StepKeepsInv(s, ops[0]);
      RunKeepsInv(Apply(s, ops[0]), ops[1..], t);
    }
  }

  /**
   In every run of puts and sweeps with fresh ids, each stopped anywhere by a crash, on an empty disk or
   one with whole artifacts of this or an earlier version: a lookup returns exactly the bytes and type
   that were put, to their owner; or refuses; or reports the artifact missing. It never returns other
   or partial bytes and never finds unreadable metadata.
   */
  lemma LookupsNeverLie(s: Store, ops: seq<Op>, t: Store, id: Id, owner: Principal)
    requires Inv(s.files, s.puts) && Run(s, ops, t)
    ensures var answer := Lookup(t.files, id, owner);
            || answer == Err(NotFound)
            || (id in t.puts && answer == Err(NotOwned) && owner.Identity() != t.puts[id].OwnerIdentity())
            || (id in t.puts && answer == Ok(Stored(t.puts[id].bytes, t.puts[id].mime))
                && owner.Identity() == t.puts[id].OwnerIdentity())
  {
    RunKeepsInv(s, ops, t);
    LookupIsExact(t.files, t.puts, id, owner);
  }

  /** A put that is not interrupted is retrievable. */
  lemma PutIsRetrievable(s: Store, op: Op)
    requires Inv(s.files, s.puts) && Enabled(s, op) && op.StoreArtifact? && op.stop == 8
    ensures Complete(Apply(s, op).files, Apply(s, op).puts, op.id)
    ensures Lookup(Apply(s, op).files, op.id, op.put.owner) == Ok(Stored(op.put.bytes, op.put.mime))
  {
    hide DoAll, Put.Ext, Lookup;
    StepKeepsInv(s, op);
    PutVisible(s.files, op.id, op.put, op.temp, op.temp', op.stop);
    LookupIsExact(Apply(s, op).files, Apply(s, op).puts, op.id, op.put.owner);
  }

  lemma StepKeepsComplete(s: Store, op: Op, id: Id)
    requires Inv(s.files, s.puts) && Enabled(s, op) && Complete(s.files, s.puts, id)
    requires op.DeleteExpired? ==> !Due(s.puts[id], op.now)
    ensures Complete(Apply(s, op).files, Apply(s, op).puts, id) && Apply(s, op).puts[id] == s.puts[id]
  {
    hide DoAll, SweepSteps, Put.Ext;
    match op {
      case StoreArtifact(other, put, temp, temp', stop) =>
        PutVisible(s.files, other, put, temp, temp', stop);
      case DeleteExpired(order, now, stop) =>
        SweepStopped(s.files, s.puts, order, now, stop);
        var after := Apply(s, op).files;
        ExpiredIsDue(s.files, s.puts, id, now);
        assert MetaFile(id) !in s.files.Keys - after.Keys && DataPath(s.puts, id) !in s.files.Keys - after.Keys;
    }
  }

  /** A stored artifact stays retrievable, whatever else is stored and swept and crashes, until a sweep past its expiry. */
  lemma {:induction false} StaysUntilExpiry(s: Store, ops: seq<Op>, t: Store, id: Id, owner: Principal)
    requires Inv(s.files, s.puts) && Run(s, ops, t) && Complete(s.files, s.puts, id)
    requires owner.Identity() == s.puts[id].OwnerIdentity()
    requires forall op <- ops :: op.DeleteExpired? ==> !Due(s.puts[id], op.now)
    ensures id in t.puts && t.puts[id] == s.puts[id]
    ensures Lookup(t.files, id, owner) == Ok(Stored(s.puts[id].bytes, s.puts[id].mime))
    decreases |ops|
  {
    hide Inv, Enabled, Apply, Lookup;
    if ops == [] {
      LookupIsExact(s.files, s.puts, id, owner);
    } else {
      assert ops[0] in ops;
      StepKeepsInv(s, ops[0]);
      StepKeepsComplete(s, ops[0], id);
      StaysUntilExpiry(Apply(s, ops[0]), ops[1..], t, id, owner);
    }
  }

  /**
   From an uninterrupted put on, through all puts, sweeps and crashes before that time, an artifact can be
   read back until a sweep that runs one time to live after it was put, or later; that one removes it.
   */
  lemma SweptExactlyWhenDue(s: Store, op: Op, ops: seq<Op>, t: Store, sweep: Op, owner: Principal)
    requires Inv(s.files, s.puts) && Enabled(s, op) && op.StoreArtifact? && op.stop == 8
    requires Run(Apply(s, op), ops, t)
    requires forall o <- ops :: o.DeleteExpired? ==> o.now < op.put.createdAt + op.put.ttl
    requires Enabled(t, sweep) && sweep.DeleteExpired? && sweep.stop == |SweepSteps(t.files, sweep.order, sweep.now)|
    requires owner.Identity() == op.put.owner.Identity()
    ensures Lookup(t.files, op.id, owner) == Ok(Stored(op.put.bytes, op.put.mime))
    ensures Lookup(Apply(t, sweep).files, op.id, owner) ==
            if sweep.now >= op.put.createdAt + op.put.ttl then Err(NotFound) else Ok(Stored(op.put.bytes, op.put.mime))
  {
    hide DoAll, SweepSteps, Put.Ext, Lookup, Inv;
    var mid := Apply(s, op);
    PutIsRetrievable(s, op);
    StepKeepsInv(s, op);
    StaysUntilExpiry(mid, ops, t, op.id, owner);
    RunKeepsInv(mid, ops, t);
    LookupIsExact(t.files, t.puts, op.id, owner);
    var steps := SweepSteps(t.files, sweep.order, sweep.now);
    assert steps[..|steps|] == steps;
    SweepIsExact(t.files, t.puts, sweep.order, sweep.now);
  }

  /** A data file without metadata. */
  ghost predicate Orphaned(s: Store, id: Id) {
    id in s.puts && DataPath(s.puts, id) in s.files && MetaFile(id) !in s.files
  }

  /** A put that stops between its data file and its metadata leaves one. */
  lemma StoppedPutOrphans(s: Store, op: Op)
    requires Inv(s.files, s.puts) && Enabled(s, op) && op.StoreArtifact? && 4 <= op.stop < 8
    ensures Orphaned(Apply(s, op), op.id)
  {
    hide DoAll, Put.Ext;
    PutVisible(s.files, op.id, op.put, op.temp, op.temp', op.stop);
  }

  lemma StepKeepsOrphan(s: Store, op: Op, id: Id)
    requires Inv(s.files, s.puts) && Enabled(s, op) && Orphaned(s, id)
    ensures Orphaned(Apply(s, op), id) && Apply(s, op).puts[id] == s.puts[id]
    ensures Apply(s, op).files[DataPath(s.puts, id)] == s.files[DataPath(s.puts, id)]
  {
    hide DoAll, SweepSteps, Put.Ext;
    match op {
      case StoreArtifact(other, put, temp, temp', stop) =>
        PutVisible(s.files, other, put, temp, temp', stop);
      case DeleteExpired(order, now, stop) =>
        SweepStopped(s.files, s.puts, order, now, stop);
        assert !Expired(s.files, id, now);
        assert DataPath(s.puts, id) !in s.files.Keys - Apply(s, op).files.Keys;
    }
  }

  /** No put, sweep or crash ever removes it, and nobody can read it. */
  lemma {:induction false} OrphansStay(s: Store, ops: seq<Op>, t: Store, id: Id, owner: Principal)
    requires Inv(s.files, s.puts) && Run(s, ops, t) && Orphaned(s, id)
    ensures Orphaned(t, id) && t.puts[id] == s.puts[id]
    ensures t.files[DataPath(t.puts, id)] == Raw(s.puts[id].bytes) && Lookup(t.files, id, owner) == Err(NotFound)
    decreases |ops|
  {
    hide Enabled, Apply, Lookup, Put.Ext;
    if ops == [] {
      LookupIsExact(s.files, s.puts, id, owner);
    } else {
      StepKeepsInv(s, ops[0]);
      StepKeepsOrphan(s, ops[0], id);
      OrphansStay(Apply(s, ops[0]), ops[1..], t, id, owner);
    }
  }

  // ---------------------------------------------------------------------
  // The store
  // ---------------------------------------------------------------------

  datatype StoreError = MediaTooLarge | MimeNotAllowed | WriteFailed

  /** The metadata files of expired artifacts. */
  ghost function ExpiredIn(files: Files, now: int): set<Path> {
    set p | p in files && p.MetaFile? && Expired(files, p.id, now)
  }

  /** `files` is `start` without the artifacts of the metadata files `gone`. */
  ghost predicate Without(start: Files, gone: set<Path>, files: Files) {
    && files.Keys <= start.Keys
    && (forall p <- start :: p in files <==> MetaOf(p) !in gone)
    && (forall p <- files :: files[p] == start[p])
  }

  lemma WithoutKeepsExpiry(start: Files, gone: set<Path>, files: Files, id: Id, now: int)
    requires Without(start, gone, files)
    ensures MetaFile(id) !in gone ==> Expired(files, id, now) == Expired(start, id, now)
  {
  }

  lemma WithoutOneMore(start: Files, gone: set<Path>, files: Files, id: Id, after: Files)
    requires Without(start, gone, files)
    requires after == map p | p in files && !BelongsTo(p, id) :: files[p]
    ensures Without(start, gone + {MetaFile(id)}, after)
  {
  }

  lemma ExpiredAreDue(files: Files, puts: map<Id, Put>, now: int)
    requires Inv(files, puts)
    ensures ExpiredIn(files, now) == set p | p in files && p.MetaFile? && Goes(files, puts, p.id, now)
    ensures forall id :: Expired(files, id, now) <==> Goes(files, puts, id, now)
  {
    forall id ensures Expired(files, id, now) <==> Goes(files, puts, id, now) {
      ExpiredIsDue(files, puts, id, now);
    }
  }

  lemma WithoutExpired(start: Files, files: Files, now: int)
    requires Without(start, ExpiredIn(start, now), files)
    ensures files == map p | p in start && (p.TempFile? || !Expired(start, p.id, now)) :: start[p]
  {
    forall p | p in start ensures p in files <==> p.TempFile? || !Expired(start, p.id, now) {
      assert !p.TempFile? && Expired(start, p.id, now) ==> MetaFile(p.id) in ExpiredIn(start, now);
    }
  }

  /** When all metadata files were looked at. */
  lemma SweepDone(start: Files, files: Files, puts: map<Id, Put>, now: int)
    requires Inv(start, puts) && Without(start, ExpiredIn(start, now), files)
    ensures files == map p | p in start && (p.TempFile? || !Goes(start, puts, p.id, now)) :: start[p]
    ensures |ExpiredIn(start, now)| == |set p | p in start && p.MetaFile? && Goes(start, puts, p.id, now)|
  {
    hide Expired, Goes, Inv;
    WithoutExpired(start, files, now);
    ExpiredAreDue(start, puts, now);
  }

  /** One turn of the sweep. */
  lemma WithoutAnother(start: Files, gone: set<Path>, files: Files, metaFile: Path, after: Files, now: int)
    requires Without(start, gone, files) && metaFile.MetaFile? && metaFile !in gone && metaFile in start
    requires after == map p | p in files && !(Expired(files, metaFile.id, now) && BelongsTo(p, metaFile.id)) :: files[p]
    ensures Without(start, gone + (if Expired(files, metaFile.id, now) then {metaFile} else {}), after)
    ensures Expired(files, metaFile.id, now) <==> metaFile in ExpiredIn(start, now)
  {
    hide Expired, Without;
    WithoutKeepsExpiry(start, gone, files, metaFile.id, now);
    if Expired(files, metaFile.id, now) {
      WithoutOneMore(start, gone, files, metaFile.id, after);
    } else {
      assert after == files;
      assert gone + {} == gone;
    }
  }

  lemma WithoutNone(files: Files)
    ensures Without(files, {}, files)
  {
  }

  class FilesystemArtifactStore {
    var files: Files
    ghost var puts: map<Id, Put>

    ghost predicate Valid()
      reads this
    {
      Inv(files, puts)
    }

    /** Opens a directory with whole artifacts, or an empty one. */
    constructor (existing: Files, ghost known: map<Id, Put>)
      requires Inv(existing, known)
      ensures Valid() && files == existing && puts == known
    {
      files, puts := existing, known;
    }

    /** The write fails or succeeds as a whole; a failure cleans up its temporary file. */
    method AtomicWrite(path: Path, content: Content, temp: nat, fails: bool) returns (ok: bool)
      requires TempFile(temp) !in files && !path.TempFile?
      modifies `files
      ensures ok <==> !fails
      ensures files == if ok then old(files)[path := content] else old(files)
    {
      files := Do(files, Create(temp));
      if fails {
        files := Do(files, WriteSome(temp));
        files := Do(files, Unlink(TempFile(temp)));
        return false;
      }
      files := Do(files, WriteAll(temp, content));
      files := Do(files, Rename(temp, path));
      ok := true;
    }

    /** A failed metadata write leaves the data file behind, unreachable. */
    method StoreBytes(id: Id, put: Put, maxBytes: nat, mimeAllowed: bool, temp: nat, dataFails: bool, metaFails: bool)
      returns (result: Result<Ref, StoreError>)
      requires Valid() && put.Put? && id !in puts && TempFile(temp) !in files
      modifies this
      ensures Valid()
      ensures |put.bytes| > maxBytes ==> result == Err(MediaTooLarge) && files == old(files)
      ensures |put.bytes| <= maxBytes && !mimeAllowed ==> result == Err(MimeNotAllowed) && files == old(files)
      ensures |put.bytes| <= maxBytes && mimeAllowed ==>
        && (result.Ok? <==> !dataFails && !metaFails) && (result.Err? ==> result.error == WriteFailed)
        && files == (var data := old(files)[DataFile(id, put.Ext()) := Raw(put.bytes)];
                     if dataFails then old(files) else if metaFails then data
                     else data[MetaFile(id) := Meta(MetadataOf(id, put))])
      ensures result.Ok? ==> result.value == MetadataOf(id, put).ref && Complete(files, puts, id)
      ensures result.Ok? ==>
        result.value == Ref(id, put.mime, |put.bytes|, put.createdAt, Some(put.createdAt + put.ttl))
      ensures result.Err? ==> Lookup(files, id, put.owner) == Err(NotFound)
    {
      hide MimeToExt, FindFrom;
      FindFinds(files, puts, id);
      if |put.bytes| > maxBytes {
        return Err(MediaTooLarge);
      }
      if !mimeAllowed {
        return Err(MimeNotAllowed);
      }
      puts := puts[id := put];
      var ok := AtomicWrite(DataFile(id, put.Ext()), Raw(put.bytes), temp, dataFails);
      if !ok {
        return Err(WriteFailed);
      }
      var metadata := MetadataOf(id, put);
      ok := AtomicWrite(MetaFile(id), Meta(metadata), temp, metaFails);
      if !ok {
        return Err(WriteFailed);
      }
      result := Ok(metadata.ref);
    }

    method Get(id: Id, owner: Principal) returns (result: Result<Stored, GetError>)
      requires Valid()
      ensures result == if !Complete(files, puts, id) then Err(NotFound)
                        else if owner.Identity() != puts[id].OwnerIdentity() then Err(NotOwned)
                        else Ok(Stored(puts[id].bytes, puts[id].mime))
    {
      LookupIsExact(files, puts, id, owner);
      var path := Find(files, id);
      if path !in files {
        return Err(NotFound);
      }
      if MetaFile(id) !in files {
        return Err(NotFound);
      }
      var metadata := files[MetaFile(id)].metadata;
      if OwnerOf(metadata) != owner.Identity() {
        return Err(NotOwned);
      }
      result := Ok(Stored(files[path].bytes, metadata.ref.mime));
    }

    /** Both files of one artifact go if it is expired, data first. */
    method DeleteIfExpired(id: Id, now: int) returns (gone: bool)
      requires Valid()
      modifies `files
      ensures Valid() && gone == Expired(old(files), id, now) == Goes(old(files), puts, id, now)
      ensures files == map p | p in old(files) && !(gone && BelongsTo(p, id)) :: old(files)[p]
    {
      gone := Expired(files, id, now);
      ExpiredIsDue(files, puts, id, now);
      if gone {
        FindFinds(files, puts, id);
        var path := Find(files, files[MetaFile(id)].metadata.ref.id);
        if path in files {
          files := files - {path};
        }
        files := files - {MetaFile(id)};
      }
    }

    /** Removes both files of exactly the expired artifacts, and counts the artifacts. */
    method DeleteExpired(now: int) returns (deleted: nat)
      requires Valid()
      modifies `files
      ensures Valid()
      ensures files == map p | p in old(files) && (p.TempFile? || !Goes(old(files), puts, p.id, now)) :: old(files)[p]
      ensures deleted == |set p | p in old(files) && p.MetaFile? && Goes(old(files), puts, p.id, now)|
    {
      hide Inv, Expired, Goes, Without, Find, FindFrom;
      deleted := 0;
      var todo := set p | p in files && p.MetaFile?;
      WithoutNone(files);
      ghost var gone: set<Path> := {};
      ghost var start := files;
      while todo != {}
        invariant Valid() && Without(start, gone, files)
        invariant gone <= ExpiredIn(start, now) <= gone + todo && gone !! todo
        invariant forall p <- todo :: p.MetaFile? && p in start
        invariant deleted == |gone|
        decreases todo
      {
        var metaFile :| metaFile in todo;
        todo := todo - {metaFile};
        ghost var before := files;
        var expired := DeleteIfExpired(metaFile.id, now);
        WithoutAnother(start, gone, before, metaFile, files, now);
        if expired {
          deleted := deleted + 1;
          gone := gone + {metaFile};
        } else {
          assert gone + {} == gone;
        }
      }
      assert gone == ExpiredIn(start, now);
      SweepDone(start, files, puts, now);
    }
  }
}
