/**
 The content-addressed blob store: scoped references, the blob table and the physical
 files behind them, under a quota for each vault and one for each user.
 */
module BlobStore {
  import opened Schema
  import opened PushSpec
  import opened OpLog

  /** The files below the blob directory, by the hash that names them. */
  type Files = map<Sha, Content>

  /** How an upload can fail outside its own checks: with everything undone, or stopped
      (or unable to clean up) after the rename, which leaves the file behind. */
  datatype UploadFault = NoFault | Undone | FileLeft

  datatype AttachResult = Attached | SizeMismatch | QuotaExceeded | AttachFailed

  datatype UploadResponse = Stored(sha: Sha, size: nat) | Refused(code: string) | UploadFailed

  // ---------------------------------------------------------------- 64-bit sums

  /** A Go int64 after overflow. */
  function Wrap64(n: int): int {
    (n + 0x8000_0000_0000_0000) % 0x1_0000_0000_0000_0000 - 0x8000_0000_0000_0000
  }

  datatype Account = OfVault(scope: Scope) | OfOwner(user: string) | OfAnyone

  predicate Charged(account: Account, row: RefRow) {
    match account
    case OfVault(s) => row.scope == s
    case OfOwner(u) => row.scope.user == u
    case OfAnyone => true
  }

  /** SELECT COALESCE(SUM(size), 0) FROM server_blob_refs */
  function Used(account: Account, refs: seq<RefRow>): nat {
    if refs == [] then 0
    else
      var row := refs[|refs| - 1];
      Used(account, refs[..|refs| - 1]) + if Charged(account, row) then row.size else 0
  }

  // ---------------------------------------------------------------- attachBlob

  /** UPDATE server_blob_refs SET last_accessed=? for one scope and hash. */
  function Touch(refs: seq<RefRow>, scope: Scope, sha: Sha, now: Timestamp): seq<RefRow> {
    if refs == [] then []
    else
      var row := refs[|refs| - 1];
      Touch(refs[..|refs| - 1], scope, sha, now) + [if IsRefTo(row, scope, sha) then row.(lastAccessed := now) else row]
  }

  /** The quota check, in the int64 arithmetic of the source. */
  predicate OverQuota(limits: Limits, refs: seq<RefRow>, scope: Scope, size: nat) {
    || Wrap64(Used(OfVault(scope), refs) + size) > limits.maxVaultBlobBytes
    || Wrap64(Used(OfOwner(scope.user), refs) + size) > limits.maxUserBlobBytes
  }

  predicate HasBlob(blobs: seq<BlobRow>, sha: Sha) {
    exists row | row in blobs :: row.sha == sha
  }

  /** INSERT OR IGNORE INTO server_blobs */
  function InsertBlob(blobs: seq<BlobRow>, row: BlobRow): seq<BlobRow> {
    if HasBlob(blobs, row.sha) then blobs else blobs + [row]
  }

  /** Rename the temporary file into place unless the content is already there. */
  function Place(files: Files, content: Content): Files {
    if Digest(content) in files then files else files[Digest(content) := content]
  }

  /** The tables once a new reference is committed. */
  function Referenced(t: Tables, scope: Scope, content: Content, now: Timestamp): Tables {
    t.(blobs := InsertBlob(t.blobs, BlobRow(Digest(content), |content|, now)),
       refs := t.refs + [RefRow(scope, Digest(content), |content|, now, now)])
  }

  function Attach(limits: Limits, t: Tables, files: Files, scope: Scope, content: Content, now: Timestamp,
                  fault: UploadFault): (Tables, Files, AttachResult)
  {
    if fault.Undone? then (t, files, AttachFailed)
    else match RefSize(t.refs, scope, Digest(content))
      case Some(size) =>
        if size != |content| then (t, files, SizeMismatch)
        else if fault.FileLeft? then (t, files, AttachFailed)
        else (t.(refs := Touch(t.refs, scope, Digest(content), now)), files, Attached)
      case None =>
        if OverQuota(limits, t.refs, scope, |content|) then (t, files, QuotaExceeded)
        else if fault.FileLeft? then (t, Place(files, content), AttachFailed)
        else (Referenced(t, scope, content, now), Place(files, content), Attached)
  }

  /** handleBlobUpload once the one file part has been received. */
  function Upload(limits: Limits, t: Tables, files: Files, scope: Scope, content: Content, now: Timestamp,
                  fault: UploadFault): (Tables, Files, UploadResponse)
  {
    if |content| > limits.maxBlobBytes then (t, files, Refused("blob_too_large"))
    else
      var (t', files', result) := Attach(limits, t, files, scope, content, now, fault);
      (t', files', match result
                   case Attached => Stored(Digest(content), |content|)
                   case QuotaExceeded => Refused("quota_exceeded")
                   case SizeMismatch => UploadFailed
                   case AttachFailed => UploadFailed)
  }

  /** handleBlobDownload: the bytes of a referenced blob, when they are there. */
  function Download(t: Tables, files: Files, scope: Scope, sha: Sha): Option<Content> {
    match RefSize(t.refs, scope, sha)
    case None => None
    case Some(size) => if sha in files && |files[sha]| == size then Some(files[sha]) else None
  }

  /** handleBlobDownload also marks the reference as used. */
  function Fetch(t: Tables, files: Files, scope: Scope, sha: Sha, now: Timestamp): (Tables, Option<Content>) {
    var content := Download(t, files, scope, sha);
    (if content.Some? then t.(refs := Touch(t.refs, scope, sha, now)) else t, content)
  }

  // ---------------------------------------------------------------- invariants

  /** (user_id, vault_id, sha256) is the primary key of server_blob_refs. */
  ghost predicate DistinctRefs(refs: seq<RefRow>) {
    forall i, j | 0 <= i < j < |refs| :: refs[i].scope != refs[j].scope || refs[i].sha != refs[j].sha
  }

  /** Every reference has its blob row and its file, and all three agree on the content. */
  ghost predicate BlobInv(t: Tables, files: Files) {
    && (forall sha | sha in files :: sha == Digest(files[sha]))
    && (forall row | row in t.blobs :: row.sha in files && row.size == |files[row.sha]|)
    && (forall row | row in t.refs :: row.sha in files && row.size == |files[row.sha]| && HasBlob(t.blobs, row.sha))
    && (forall i, j | 0 <= i < j < |t.blobs| :: t.blobs[i].sha != t.blobs[j].sha)
    && DistinctRefs(t.refs)
  }

  /** The quotas of every vault and every user hold. */
  ghost predicate QuotaInv(limits: Limits, t: Tables) {
    && (forall scope: Scope :: Used(OfVault(scope), t.refs) <= limits.maxVaultBlobBytes)
    && (forall user: string :: Used(OfOwner(user), t.refs) <= limits.maxUserBlobBytes)
  }

  /** Each quota plus one more blob fits a 64-bit integer. */
  predicate FitsInt64(limits: Limits) {
    && limits.maxVaultBlobBytes + limits.maxBlobBytes <= MAX_INT64
    && limits.maxUserBlobBytes + limits.maxBlobBytes <= MAX_INT64
  }

  /** Every logged operation still passes the check it passed when it was pushed. */
  ghost predicate Restorable(t: Tables) {
    forall row | row in t.ops :: CheckReference(t.refs, row.scope, row.op) == ""
  }

  // ---------------------------------------------------------------- what the table operations keep

  lemma {:induction false} RefSizeFound(refs: seq<RefRow>, scope: Scope, sha: Sha)
    ensures RefSize(refs, scope, sha).None? ==> forall row | row in refs :: row.scope != scope || row.sha != sha
    ensures RefSize(refs, scope, sha).Some? ==> exists row | row in refs ::
              row.scope == scope && row.sha == sha && RefSize(refs, scope, sha) == Some(row.size)
  {
    if refs != [] {
      var before, last := refs[..|refs| - 1], refs[|refs| - 1];
      RefSizeFound(before, scope, sha);
      assert refs == before + [last];
      assert last in refs;
    }
  }

  lemma {:induction false} TouchRows(refs: seq<RefRow>, scope: Scope, sha: Sha, now: Timestamp)
    ensures var touched := Touch(refs, scope, sha, now);
            && |touched| == |refs|
            && forall i | 0 <= i < |refs| ::
                 touched[i] == if refs[i].scope == scope && refs[i].sha == sha then refs[i].(lastAccessed := now)
                               else refs[i]
  {
    if refs != [] {
      TouchRows(refs[..|refs| - 1], scope, sha, now);
    }
  }

  lemma {:induction false} TouchSize(refs: seq<RefRow>, scope: Scope, sha: Sha, now: Timestamp, s: Scope, h: Sha)
    ensures RefSize(Touch(refs, scope, sha, now), s, h) == RefSize(refs, s, h)
  {
    if refs != [] {
      var before, touched := refs[..|refs| - 1], Touch(refs, scope, sha, now);
      TouchSize(before, scope, sha, now, s, h);
      assert touched[..|touched| - 1] == Touch(before, scope, sha, now);
    }
  }

  lemma {:induction false} TouchUsed(refs: seq<RefRow>, scope: Scope, sha: Sha, now: Timestamp, a: Account)
    ensures Used(a, Touch(refs, scope, sha, now)) == Used(a, refs)
  {
    if refs != [] {
      var before, touched := refs[..|refs| - 1], Touch(refs, scope, sha, now);
      TouchUsed(before, scope, sha, now, a);
      assert touched[..|touched| - 1] == Touch(before, scope, sha, now);
    }
  }

  lemma RefAppended(refs: seq<RefRow>, row: RefRow, a: Account, s: Scope, h: Sha)
    ensures Used(a, refs + [row]) == Used(a, refs) + if Charged(a, row) then row.size else 0
    ensures RefSize(refs + [row], s, h) == if IsRefTo(row, s, h) then Some(row.size) else RefSize(refs, s, h)
  {
    UsedAppend(a, refs, row);
    assert (refs + [row])[..|refs + [row]| - 1] == refs;
  }

  lemma {:induction false} RefsWithoutSize(user: string, refs: seq<RefRow>, s: Scope, h: Sha)
    requires s.user != user
    ensures RefSize(RefsWithout(user, refs), s, h) == RefSize(refs, s, h)
  {
    if refs != [] {
      var before, kept := refs[..|refs| - 1], RefsWithout(user, refs);
      RefsWithoutSize(user, before, s, h);
      assert refs[|refs| - 1].scope.user != user ==> kept[..|kept| - 1] == RefsWithout(user, before);
    }
  }

  lemma UsedAppend(a: Account, refs: seq<RefRow>, row: RefRow)
    ensures Used(a, refs + [row]) == Used(a, refs) + if Charged(a, row) then row.size else 0
  {
    assert (refs + [row])[..|refs + [row]| - 1] == refs;
  }

  predicate IsOther(a: Account, user: string) {
    match a
    case OfVault(s) => s.user != user
    case OfOwner(u) => u != user
    case OfAnyone => false
  }

  /** Deleting a user never raises a sum, and leaves the sums of everyone else as they were. */
  lemma {:induction false} RefsWithoutUsed(user: string, refs: seq<RefRow>, a: Account)
    ensures Used(a, RefsWithout(user, refs)) <= Used(a, refs)
    ensures IsOther(a, user) ==> Used(a, RefsWithout(user, refs)) == Used(a, refs)
  {
    if refs != [] {
      var before, row := refs[..|refs| - 1], refs[|refs| - 1];
      RefsWithoutUsed(user, before, a);
      assert refs == before + [row];
      UsedAppend(a, before, row);
      UsedAppend(a, RefsWithout(user, before), row);
      assert RefsWithout(user, refs) ==
        if row.scope.user == user then RefsWithout(user, before) else RefsWithout(user, before) + [row];
    }
  }

  lemma {:induction false} RefsWithoutDistinct(user: string, refs: seq<RefRow>)
    requires DistinctRefs(refs)
    ensures DistinctRefs(RefsWithout(user, refs))
  {
    if refs != [] {
      var before, row := refs[..|refs| - 1], refs[|refs| - 1];
      RefsWithoutDistinct(user, before);
      var kept := RefsWithout(user, before);
      forall i | 0 <= i < |kept| ensures kept[i].scope != row.scope || kept[i].sha != row.sha {
        RefsOfOthers(user, before, kept[i]);
        var j :| 0 <= j < |before| && before[j] == kept[i];
        assert refs[j] == kept[i];
      }
    }
  }

  // ---------------------------------------------------------------- upload

  /** What an upload can do to the tables and the files: nothing, mark a reference as used,
      leave a file behind, or add a reference and its file. */
  lemma UploadCases(limits: Limits, t: Tables, files: Files, scope: Scope, content: Content, now: Timestamp,
                    fault: UploadFault)
    ensures var (t', files', response) := Upload(limits, t, files, scope, content, now, fault);
            || (t' == t && files' == files && !response.Stored?)
            || (&& RefSize(t.refs, scope, Digest(content)) == Some(|content|)
                && t' == t.(refs := Touch(t.refs, scope, Digest(content), now)) && files' == files)
            || (&& RefSize(t.refs, scope, Digest(content)).None? && |content| <= limits.maxBlobBytes
                && !OverQuota(limits, t.refs, scope, |content|) && files' == Place(files, content)
                && (t' == Referenced(t, scope, content, now) || (t' == t && response.UploadFailed?)))
  {}

  /** A refused upload, for its size or for a quota, leaves no row and no file behind. */
  lemma RefusalLeavesNothing(limits: Limits, t: Tables, files: Files, scope: Scope, content: Content, now: Timestamp,
                             fault: UploadFault)
    requires Upload(limits, t, files, scope, content, now, fault).2.Refused?
    ensures Upload(limits, t, files, scope, content, now, fault).0 == t
    ensures Upload(limits, t, files, scope, content, now, fault).1 == files
  {
    UploadCases(limits, t, files, scope, content, now, fault);
  }

  lemma UploadKeepsBlobs(limits: Limits, t: Tables, files: Files, scope: Scope, content: Content, now: Timestamp,
                         fault: UploadFault)
    requires BlobInv(t, files)
    ensures var (t', files', _) := Upload(limits, t, files, scope, content, now, fault);
            && BlobInv(t', files')
            && (forall sha | sha in files :: sha in files' && files'[sha] == files[sha])
  {
    UploadCases(limits, t, files, scope, content, now, fault);
    TouchKeepsBlobs(t, files, scope, Digest(content), now);
    if RefSize(t.refs, scope, Digest(content)).None? {
      ReferencedKeepsBlobs(t, files, scope, content, now);
    }
  }

  lemma TouchKeepsBlobs(t: Tables, files: Files, scope: Scope, sha: Sha, now: Timestamp)
    requires BlobInv(t, files)
    ensures BlobInv(t.(refs := Touch(t.refs, scope, sha, now)), files)
  {
    TouchRows(t.refs, scope, sha, now);
    var touched := Touch(t.refs, scope, sha, now);
    forall row | row in touched
      ensures row.sha in files && row.size == |files[row.sha]| && HasBlob(t.blobs, row.sha)
    {
      var i :| 0 <= i < |touched| && touched[i] == row;
      assert t.refs[i] in t.refs;
    }
  }

  lemma ReferencedKeepsBlobs(t: Tables, files: Files, scope: Scope, content: Content, now: Timestamp)
    requires BlobInv(t, files)
    requires RefSize(t.refs, scope, Digest(content)).None?
    ensures BlobInv(t, Place(files, content))
    ensures BlobInv(Referenced(t, scope, content, now), Place(files, content))
  {
    var t', files' := Referenced(t, scope, content, now), Place(files, content);
    forall row | row in t'.refs
      ensures row.sha in files' && row.size == |files'[row.sha]| && HasBlob(t'.blobs, row.sha)
    {
      if row in t.refs {
        var blob :| blob in t.blobs && blob.sha == row.sha;
        assert blob in t'.blobs;
      } else if !HasBlob(t.blobs, Digest(content)) {
        assert t'.blobs[|t.blobs|] in t'.blobs;
      }
    }
    forall i, j | 0 <= i < j < |t'.blobs| ensures t'.blobs[i].sha != t'.blobs[j].sha {
      if j == |t.blobs| {
        assert t.blobs[i] in t.blobs;
      }
    }
    RefSizeFound(t.refs, scope, Digest(content));
    forall i, j | 0 <= i < j < |t'.refs|
      ensures t'.refs[i].scope != t'.refs[j].scope || t'.refs[i].sha != t'.refs[j].sha
    {
      if j == |t.refs| {
        assert t.refs[i] in t.refs;
      }
    }
  }

  /** All references to one hash have the size of its content, so attachBlob never meets a
      reference of a different size. */
  lemma SizesAgree(limits: Limits, t: Tables, files: Files, scope: Scope, content: Content, now: Timestamp,
                   fault: UploadFault)
    requires BlobInv(t, files)
    ensures RefSize(t.refs, scope, Digest(content)).Some? ==>
              RefSize(t.refs, scope, Digest(content)) == Some(|content|)
    ensures Attach(limits, t, files, scope, content, now, fault).2 != SizeMismatch
  {
    RefSizeFound(t.refs, scope, Digest(content));
  }

  /** No addition of the quota check overflows, so an upload is refused exactly when it would
      take its vault or its user over the limit. */
  lemma QuotaCheckIsExact(limits: Limits, t: Tables, scope: Scope, size: nat)
    requires FitsInt64(limits) && QuotaInv(limits, t) && size <= limits.maxBlobBytes
    ensures OverQuota(limits, t.refs, scope, size) <==>
            || Used(OfVault(scope), t.refs) + size > limits.maxVaultBlobBytes
            || Used(OfOwner(scope.user), t.refs) + size > limits.maxUserBlobBytes
  {
    assert Used(OfVault(scope), t.refs) <= limits.maxVaultBlobBytes;
    assert Used(OfOwner(scope.user), t.refs) <= limits.maxUserBlobBytes;
  }

  predicate WithinQuota(limits: Limits, a: Account, refs: seq<RefRow>) {
    match a
    case OfVault(_) => Used(a, refs) <= limits.maxVaultBlobBytes
    case OfOwner(_) => Used(a, refs) <= limits.maxUserBlobBytes
    case OfAnyone => true
  }

  lemma UploadKeepsQuotas(limits: Limits, t: Tables, files: Files, scope: Scope, content: Content, now: Timestamp,
                          fault: UploadFault)
    requires FitsInt64(limits) && QuotaInv(limits, t)
    ensures QuotaInv(limits, Upload(limits, t, files, scope, content, now, fault).0)
  {
    var t' := Upload(limits, t, files, scope, content, now, fault).0;
    UploadCases(limits, t, files, scope, content, now, fault);
    if |content| <= limits.maxBlobBytes {
      QuotaCheckIsExact(limits, t, scope, |content|);
    }
    forall a: Account ensures WithinQuota(limits, a, t'.refs) {
      TouchUsed(t.refs, scope, Digest(content), now, a);
      RefAppended(t.refs, RefRow(scope, Digest(content), |content|, now, now), a, scope, Digest(content));
      assert a.OfVault? ==> Used(OfVault(a.scope), t.refs) <= limits.maxVaultBlobBytes;
      assert a.OfOwner? ==> Used(OfOwner(a.user), t.refs) <= limits.maxUserBlobBytes;
    }
    assert forall s: Scope :: WithinQuota(limits, OfVault(s), t'.refs);
    assert forall u: string :: WithinQuota(limits, OfOwner(u), t'.refs);
  }

  /** Uploading content the scope already refers to changes no sum, no file and no reference's size. */
  lemma ReuploadIsFree(limits: Limits, t: Tables, files: Files, scope: Scope, content: Content, now: Timestamp,
                       fault: UploadFault, a: Account, s: Scope, h: Sha)
    requires BlobInv(t, files) && RefSize(t.refs, scope, Digest(content)).Some?
    ensures var (t', files', response) := Upload(limits, t, files, scope, content, now, fault);
            && files' == files && t'.blobs == t.blobs
            && Used(a, t'.refs) == Used(a, t.refs)
            && RefSize(t'.refs, s, h) == RefSize(t.refs, s, h)
            && (fault.NoFault? && |content| <= limits.maxBlobBytes ==> response == Stored(Digest(content), |content|))
  {
    SizesAgree(limits, t, files, scope, content, now, fault);
    TouchUsed(t.refs, scope, Digest(content), now, a);
    TouchSize(t.refs, scope, Digest(content), now, s, h);
  }

  // ---------------------------------------------------------------- what a reference is

  /** The scope refers to the hash. */
  predicate HasRef(refs: seq<RefRow>, scope: Scope, sha: Sha) {
    exists row | row in refs :: row.scope == scope && row.sha == sha
  }

  predicate HasRefOfSize(refs: seq<RefRow>, scope: Scope, sha: Sha, size: int) {
    exists row | row in refs :: row.scope == scope && row.sha == sha && row.size == size
  }

  /** A reference belongs to one vault of one user. */
  lemma RefSizeIsExact(refs: seq<RefRow>, scope: Scope, sha: Sha, size: nat)
    requires DistinctRefs(refs)
    ensures RefSize(refs, scope, sha) == Some(size) <==> HasRefOfSize(refs, scope, sha, size)
    ensures RefSize(refs, scope, sha) == None <==> !HasRef(refs, scope, sha)
  {
    RefSizeFound(refs, scope, sha);
    if RefSize(refs, scope, sha).Some? {
      var row :| row in refs && row.scope == scope && row.sha == sha && RefSize(refs, scope, sha) == Some(row.size);
      forall other | other in refs && other.scope == scope && other.sha == sha ensures other == row {
        var i :| 0 <= i < |refs| && refs[i] == row;
        var j :| 0 <= j < |refs| && refs[j] == other;
        assert i == j;
      }
    }
  }

  /** A download gives exactly the content that the scope refers to under the hash, when its file is there. */
  lemma DownloadIsExact(t: Tables, files: Files, scope: Scope, sha: Sha, content: Content)
    requires DistinctRefs(t.refs)
    ensures Download(t, files, scope, sha) == Some(content) <==>
            HasRefOfSize(t.refs, scope, sha, |content|) && sha in files && files[sha] == content
  {
    RefSizeIsExact(t.refs, scope, sha, |content|);
  }

  /** What the reference check finds wrong with an operation. */
  lemma ReferenceCode(refs: seq<RefRow>, scope: Scope, op: Operation)
    requires DistinctRefs(refs)
    ensures var code, p := CheckReference(refs, scope, op), op.payload;
            var relevant := op.entityType == "file" && !p.Blank?;
            var named := relevant && p.Fields? && !p.inline && p.blob.Some?;
            var proper := named && p.blob.value.sha.Digest? && p.blob.value.size >= 0;
            && (code == "invalid_payload" <==> relevant && !p.Fields?)
            && (code == "inline_binary_forbidden" <==> relevant && p.Fields? && p.inline)
            && (code == "blob_not_owned" <==> proper && !HasRef(refs, scope, p.blob.value.sha))
            && (code == "invalid_blob_reference" <==>
                  named && (!proper || (HasRef(refs, scope, p.blob.value.sha)
                                        && !HasRefOfSize(refs, scope, p.blob.value.sha, p.blob.value.size))))
            && (code == "" <==>
                  !relevant || (p.Fields? && !p.inline && p.blob.None?)
                  || (proper && HasRefOfSize(refs, scope, p.blob.value.sha, p.blob.value.size)))
  {
    var p := op.payload;
    assert "" != "invalid_payload" && "" != "inline_binary_forbidden" && "" != "blob_not_owned"
        && "" != "invalid_blob_reference";
    if p.Fields? && p.blob.Some? && p.blob.value.size >= 0 {
      RefSizeIsExact(refs, scope, p.blob.value.sha, p.blob.value.size);
    }
  }

  // ---------------------------------------------------------------- what an upload answers and leaves

  /** A 64-bit sum is within range and differs from the true one by a multiple of 2^64. */
  lemma WrapIsInt64(n: int)
    ensures MIN_INT64 <= Wrap64(n) <= MAX_INT64
    ensures (n - Wrap64(n)) % 0x1_0000_0000_0000_0000 == 0
    ensures MIN_INT64 <= n <= MAX_INT64 <==> Wrap64(n) == n
  {}

  /** The sums behind the quotas, row by row. */
  lemma SumsOfRow(refs: seq<RefRow>, row: RefRow, scope: Scope, user: string)
    ensures Used(OfVault(scope), []) == Used(OfOwner(user), []) == 0
    ensures Used(OfVault(scope), refs + [row]) ==
            Used(OfVault(scope), refs) + if row.scope == scope then row.size else 0
    ensures Used(OfOwner(user), refs + [row]) ==
            Used(OfOwner(user), refs) + if row.scope.user == user then row.size else 0
  {
    UsedAppend(OfVault(scope), refs, row);
    UsedAppend(OfOwner(user), refs, row);
  }

  /** What an upload answers. It is stored iff the content is small enough, nothing fails, and the scope refers to it
      already or has room for it in both quotas. */
  lemma UploadAnswers(limits: Limits, t: Tables, files: Files, scope: Scope, content: Content, now: Timestamp,
                      fault: UploadFault)
    requires BlobInv(t, files) && FitsInt64(limits) && QuotaInv(limits, t)
    ensures var response := Upload(limits, t, files, scope, content, now, fault).2;
            var small := |content| <= limits.maxBlobBytes;
            var owned := HasRef(t.refs, scope, Digest(content));
            var full := || Used(OfVault(scope), t.refs) + |content| > limits.maxVaultBlobBytes
                        || Used(OfOwner(scope.user), t.refs) + |content| > limits.maxUserBlobBytes;
            && (response == Refused("blob_too_large") <==> !small)
            && (response == Refused("quota_exceeded") <==> small && !fault.Undone? && !owned && full)
            && (response == Stored(Digest(content), |content|) <==> small && fault.NoFault? && (owned || !full))
            && (response.Refused? || response.UploadFailed? || response == Stored(Digest(content), |content|))
  {
    assert "blob_too_large" != "quota_exceeded";
    SizesAgree(limits, t, files, scope, content, now, fault);
    RefSizeIsExact(t.refs, scope, Digest(content), |content|);
    if |content| <= limits.maxBlobBytes {
      QuotaCheckIsExact(limits, t, scope, |content|);
    }
  }

  /** The row of a scope and a hash, created at the given time and last used now. */
  predicate IsFreshlyUsed(row: RefRow, scope: Scope, content: Content, created: Timestamp, now: Timestamp) {
    && row.scope == scope && row.sha == Digest(content) && row.size == |content|
    && row.createdAt == created && row.lastAccessed == now
  }

  /** What a stored upload leaves: a reference of exactly its scope and hash, marked as used now and created now if
      there was none, all other references as they were, a blob row, and the content's file. */
  lemma UploadLeavesReference(limits: Limits, t: Tables, files: Files, scope: Scope, content: Content, now: Timestamp,
                              fault: UploadFault, other: RefRow)
    requires BlobInv(t, files) && Upload(limits, t, files, scope, content, now, fault).2.Stored?
    ensures var (t', files', _) := Upload(limits, t, files, scope, content, now, fault);
            && (!HasRef(t.refs, scope, Digest(content)) ==>
                  exists row | row in t'.refs :: IsFreshlyUsed(row, scope, content, now, now))
            && (HasRef(t.refs, scope, Digest(content)) ==>
                  exists was, row | was in t.refs && row in t'.refs ::
                    && was.scope == scope && was.sha == Digest(content)
                    && IsFreshlyUsed(row, scope, content, was.createdAt, now))
            && (other.scope != scope || other.sha != Digest(content) ==> (other in t'.refs <==> other in t.refs))
            && DistinctRefs(t'.refs) && HasBlob(t'.blobs, Digest(content))
            && (t'.blobs == t.blobs || t'.blobs == t.blobs + [BlobRow(Digest(content), |content|, now)])
            && Digest(content) in files' && files'[Digest(content)] == content
  {
    UploadKeepsBlobs(limits, t, files, scope, content, now, fault);
    UploadCases(limits, t, files, scope, content, now, fault);
    RefSizeIsExact(t.refs, scope, Digest(content), |content|);
    if HasRef(t.refs, scope, Digest(content)) {
      TouchedReference(t.refs, scope, content, now, other);
      AnyHasBlob(t, files, scope, content);
    } else {
      AddedReference(t, scope, content, now, other);
    }
  }

  /** An upload that is not stored leaves every row as it was, and every file. */
  lemma UnstoredLeavesRows(limits: Limits, t: Tables, files: Files, scope: Scope, content: Content, now: Timestamp,
                           fault: UploadFault)
    ensures var (t', files', response) := Upload(limits, t, files, scope, content, now, fault);
            !response.Stored? ==>
              t' == t && (files' == files || (fault.FileLeft? && files' == files[Digest(content) := content]))
  {}

  /** A download that is served notes the time in its own reference; one that is not changes nothing. */
  lemma FetchEffect(t: Tables, files: Files, scope: Scope, sha: Sha, now: Timestamp, i: nat)
    requires i < |t.refs|
    ensures var (t', content) := Fetch(t, files, scope, sha, now);
            var row := t.refs[i];
            && content == Download(t, files, scope, sha)
            && |t'.refs| == |t.refs| && t' == t.(refs := t'.refs)
            && t'.refs[i] == if content.Some? && row.scope == scope && row.sha == sha then row.(lastAccessed := now)
                             else row
  {
    TouchRows(t.refs, scope, sha, now);
  }

  lemma TouchedReference(refs: seq<RefRow>, scope: Scope, content: Content, now: Timestamp, other: RefRow)
    requires HasRefOfSize(refs, scope, Digest(content), |content|)
    ensures var touched := Touch(refs, scope, Digest(content), now);
            && (exists was, row | was in refs && row in touched ::
                  && was.scope == scope && was.sha == Digest(content)
                  && IsFreshlyUsed(row, scope, content, was.createdAt, now))
            && (other.scope != scope || other.sha != Digest(content) ==> (other in touched <==> other in refs))
  {
    var touched := Touch(refs, scope, Digest(content), now);
    TouchRows(refs, scope, Digest(content), now);
    var was :| was in refs && was.scope == scope && was.sha == Digest(content) && was.size == |content|;
    var i :| 0 <= i < |refs| && refs[i] == was;
    assert touched[i] in touched && IsFreshlyUsed(touched[i], scope, content, was.createdAt, now);
    if other in refs && (other.scope != scope || other.sha != Digest(content)) {
      var j :| 0 <= j < |refs| && refs[j] == other;
      assert touched[j] == other;
    }
  }

  lemma AnyHasBlob(t: Tables, files: Files, scope: Scope, content: Content)
    requires BlobInv(t, files) && HasRef(t.refs, scope, Digest(content))
    ensures HasBlob(t.blobs, Digest(content)) && Digest(content) in files && files[Digest(content)] == content
  {}

  lemma AddedReference(t: Tables, scope: Scope, content: Content, now: Timestamp, other: RefRow)
    ensures var t' := Referenced(t, scope, content, now);
            && (exists row | row in t'.refs :: IsFreshlyUsed(row, scope, content, now, now))
            && (other.scope != scope || other.sha != Digest(content) ==> (other in t'.refs <==> other in t.refs))
            && t.blobs <= t'.blobs && HasBlob(t'.blobs, Digest(content))
  {
    var t' := Referenced(t, scope, content, now);
    assert IsFreshlyUsed(t'.refs[|t.refs|], scope, content, now, now);
    if !HasBlob(t.blobs, Digest(content)) {
      assert t'.blobs[|t.blobs|] in t'.blobs;
    }
  }

  // ---------------------------------------------------------------- restorability

  /** A scope's references are kept with their sizes, or gained. */
  ghost predicate RefsKept(scope: Scope, a: seq<RefRow>, b: seq<RefRow>) {
    forall h: Sha | RefSize(a, scope, h).Some? :: RefSize(b, scope, h) == RefSize(a, scope, h)
  }

  lemma ChecksCarryOver(a: seq<RefRow>, b: seq<RefRow>, scope: Scope, op: Operation)
    requires CheckReference(a, scope, op) == "" && RefsKept(scope, a, b)
    ensures CheckReference(b, scope, op) == ""
  {}

  lemma UploadKeepsRefs(limits: Limits, t: Tables, files: Files, scope: Scope, content: Content, now: Timestamp,
                        fault: UploadFault, s: Scope)
    ensures RefsKept(s, t.refs, Upload(limits, t, files, scope, content, now, fault).0.refs)
  {
    UploadCases(limits, t, files, scope, content, now, fault);
    var refs := Upload(limits, t, files, scope, content, now, fault).0.refs;
    forall h: Sha | RefSize(t.refs, s, h).Some? ensures RefSize(refs, s, h) == RefSize(t.refs, s, h) {
      TouchSize(t.refs, scope, Digest(content), now, s, h);
      RefAppended(t.refs, RefRow(scope, Digest(content), |content|, now, now), OfAnyone, s, h);
    }
  }

  lemma UploadKeepsRestorable(limits: Limits, t: Tables, files: Files, scope: Scope, content: Content, now: Timestamp,
                              fault: UploadFault)
    requires Restorable(t)
    ensures Restorable(Upload(limits, t, files, scope, content, now, fault).0)
  {
    UploadCases(limits, t, files, scope, content, now, fault);
    var t' := Upload(limits, t, files, scope, content, now, fault).0;
    forall row | row in t.ops ensures CheckReference(t'.refs, row.scope, row.op) == "" {
      UploadKeepsRefs(limits, t, files, scope, content, now, fault, row.scope);
      ChecksCarryOver(t.refs, t'.refs, row.scope, row.op);
    }
  }

  lemma TouchKeepsRefs(refs: seq<RefRow>, scope: Scope, sha: Sha, now: Timestamp, s: Scope)
    ensures RefsKept(s, refs, Touch(refs, scope, sha, now))
  {
    forall h: Sha | RefSize(refs, s, h).Some?
      ensures RefSize(Touch(refs, scope, sha, now), s, h) == RefSize(refs, s, h) {
      TouchSize(refs, scope, sha, now, s, h);
    }
  }

  lemma FetchKeepsRestorable(t: Tables, files: Files, scope: Scope, sha: Sha, now: Timestamp)
    requires Restorable(t)
    ensures Restorable(Fetch(t, files, scope, sha, now).0)
  {
    var touched := Touch(t.refs, scope, sha, now);
    forall row | row in t.ops ensures CheckReference(touched, row.scope, row.op) == "" {
      TouchKeepsRefs(t.refs, scope, sha, now, row.scope);
      ChecksCarryOver(t.refs, touched, row.scope, row.op);
    }
  }

  lemma FetchKeepsQuotas(limits: Limits, t: Tables, files: Files, scope: Scope, sha: Sha, now: Timestamp)
    requires QuotaInv(limits, t)
    ensures QuotaInv(limits, Fetch(t, files, scope, sha, now).0)
  {
    var touched := Touch(t.refs, scope, sha, now);
    forall s: Scope ensures Used(OfVault(s), touched) <= limits.maxVaultBlobBytes {
      TouchUsed(t.refs, scope, sha, now, OfVault(s));
    }
    forall u: string ensures Used(OfOwner(u), touched) <= limits.maxUserBlobBytes {
      TouchUsed(t.refs, scope, sha, now, OfOwner(u));
    }
  }

  lemma CommitKeepsRestorable(t: Tables, d: Device, req: PushRequest, now: Timestamp)
    requires Restorable(t) && CheckReferences(t.refs, d.scope, req.ops) == ""
    ensures Restorable(Committed(t, d, req, now))
  {
    var added := Fresh(t.ops, req.ops);
    var rows := NewRows(d, req.key, now, t.counter + 1, added);
    CheckReferencesPass(t.refs, d.scope, req.ops);
    forall row | row in rows ensures CheckReference(t.refs, row.scope, row.op) == "" {
      var i :| 0 <= i < |rows| && rows[i] == row;
      assert added[i] in added;
      FreshMember(t.ops, req.ops, added[i]);
    }
  }

  lemma DeletionKeepsRefs(user: string, refs: seq<RefRow>, s: Scope)
    requires s.user != user
    ensures RefsKept(s, refs, RefsWithout(user, refs))
  {
    forall h: Sha | RefSize(refs, s, h).Some? ensures RefSize(RefsWithout(user, refs), s, h) == RefSize(refs, s, h) {
      RefsWithoutSize(user, refs, s, h);
    }
  }

  lemma DeletionKeepsRestorable(t: Tables, user: string)
    requires Restorable(t)
    ensures Restorable(WithoutUser(t, user))
  {
    var refs := RefsWithout(user, t.refs);
    forall row | row in Select(NotOfUser(user), t.ops) ensures CheckReference(refs, row.scope, row.op) == "" {
      SelectMember(NotOfUser(user), t.ops, row);
      DeletionKeepsRefs(user, t.refs, row.scope);
      ChecksCarryOver(t.refs, refs, row.scope, row.op);
    }
  }

  lemma DeletionKeepsBlobs(t: Tables, files: Files, user: string)
    requires BlobInv(t, files)
    ensures BlobInv(WithoutUser(t, user), files)
  {
    RefsWithoutDistinct(user, t.refs);
    forall row | row in RefsWithout(user, t.refs) ensures row in t.refs {
      RefsOfOthers(user, t.refs, row);
    }
  }

  lemma DeletionKeepsQuotas(limits: Limits, t: Tables, user: string)
    requires QuotaInv(limits, t)
    ensures QuotaInv(limits, WithoutUser(t, user))
  {
    var refs := RefsWithout(user, t.refs);
    forall scope: Scope ensures Used(OfVault(scope), refs) <= limits.maxVaultBlobBytes {
      RefsWithoutUsed(user, t.refs, OfVault(scope));
    }
    forall u: string ensures Used(OfOwner(u), refs) <= limits.maxUserBlobBytes {
      RefsWithoutUsed(user, t.refs, OfOwner(u));
    }
  }

  /** Restorability: the blob a logged file operation names can be downloaded in the operation's
      own scope, and what comes back is the content of that hash, of the size the operation names. */
  lemma LoggedBlobIsServed(t: Tables, files: Files, row: OpRow, claim: BlobClaim)
    requires BlobInv(t, files) && Restorable(t)
    requires row in t.ops && row.op.entityType == "file" && row.op.payload.Fields?
    requires row.op.payload.blob == Some(claim)
    ensures claim.sha.Digest? && claim.size == |claim.sha.content|
    ensures Download(t, files, row.scope, claim.sha) == Some(claim.sha.content)
  {
    assert CheckReference(t.refs, row.scope, row.op) == "";
    RefSizeFound(t.refs, row.scope, claim.sha);
  }

  // ---------------------------------------------------------------- deduplication

  predicate IsReferenced(refs: seq<RefRow>, sha: Sha) {
    exists row | row in refs :: row.sha == sha
  }

  /** The bytes of the distinct hashes that are referenced. */
  function ReferencedBytes(blobs: seq<BlobRow>, refs: seq<RefRow>): nat {
    if blobs == [] then 0
    else
      var row := blobs[|blobs| - 1];
      ReferencedBytes(blobs[..|blobs| - 1], refs) + if IsReferenced(refs, row.sha) then row.size else 0
  }

  lemma {:induction false} OneMoreRef(blobs: seq<BlobRow>, refs: seq<RefRow>, row: RefRow)
    requires forall i, j | 0 <= i < j < |blobs| :: blobs[i].sha != blobs[j].sha
    requires forall b | b in blobs && b.sha == row.sha :: b.size == row.size
    ensures ReferencedBytes(blobs, refs + [row]) <= ReferencedBytes(blobs, refs) + row.size
    ensures row.sha !in (set b | b in blobs :: b.sha) ==>
              ReferencedBytes(blobs, refs + [row]) == ReferencedBytes(blobs, refs)
  {
    if blobs != [] {
      var before, last := blobs[..|blobs| - 1], blobs[|blobs| - 1];
      OneMoreRef(before, refs, row);
      forall b | b in before ensures b.sha != last.sha {
        var i :| 0 <= i < |before| && before[i] == b;
        assert blobs[i].sha != blobs[|before|].sha;
      }
      assert IsReferenced(refs + [row], last.sha) <==> IsReferenced(refs, last.sha) || last.sha == row.sha by {
        assert forall r :: r in refs + [row] <==> r in refs || r == row;
      }
    }
  }

  /** Storing each distinct content once never takes more than the sum the quotas charge. */
  lemma DeduplicationSaves(t: Tables, files: Files)
    requires BlobInv(t, files)
    ensures ReferencedBytes(t.blobs, t.refs) <= Used(OfAnyone, t.refs)
  {
    DeduplicationUpTo(t, files, |t.refs|);
    assert t.refs[..|t.refs|] == t.refs;
  }

  lemma {:induction false} DeduplicationUpTo(t: Tables, files: Files, n: nat)
    requires BlobInv(t, files) && n <= |t.refs|
    ensures ReferencedBytes(t.blobs, t.refs[..n]) <= Used(OfAnyone, t.refs[..n])
  {
    if n == 0 {
      NothingReferenced(t.blobs);
    } else {
      DeduplicationUpTo(t, files, n - 1);
      assert t.refs[..n] == t.refs[..n - 1] + [t.refs[n - 1]];
      OneMoreRef(t.blobs, t.refs[..n - 1], t.refs[n - 1]);
    }
  }

  lemma NothingReferenced(blobs: seq<BlobRow>)
    ensures ReferencedBytes(blobs, []) == 0
  {}
}
