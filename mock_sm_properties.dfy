/** What the mock secret store promises across calls: validation before any disk
    access, the duplicate-create guard, the create/update/get round trips, field
    preservation, idempotent delete, independence of distinct secrets, and an
    invariant kept by every sequence of calls. */
module MockProperties {
  import opened JavaText
  import opened Mock

  /** One call on the service, with the disk behaviour it meets. */
  datatype Request =
    | CreateSecret(secretId: Option<string>, secretString: Option<string>, io: Io)
    | UpdateSecretDescription(secretId: Option<string>, secretDescription: Option<string>, io: Io)
    | UpdateSecretValue(secretId: Option<string>, secretString: Option<string>, io: Io)
    | GetSecret(secretId: Option<string>, io: Io)
    | DeleteSecret(secretId: Option<string>, io: Io)
    | SetTargetDirectory(targetDirectory: Option<string>)

  /** The service's state: its directory and the disk. */
  datatype State = State(targetDirectory: Option<string>, disk: Disk)

  /** The state after one call. */
  function Apply(s: State, q: Request): State {
    match q
    case CreateSecret(id, c, io) => s.(disk := CreateSecretStep(s.targetDirectory, s.disk, id, c, io).disk)
    case UpdateSecretDescription(id, d, io) => s.(disk := UpdateSecretDescriptionStep(s.targetDirectory, s.disk, id, d, io).disk)
    case UpdateSecretValue(id, c, io) => s.(disk := UpdateSecretValueStep(s.targetDirectory, s.disk, id, c, io).disk)
    case GetSecret(_, _) => s
    case DeleteSecret(id, io) => s.(disk := DeleteSecretStep(s.targetDirectory, s.disk, id, io).disk)
    case SetTargetDirectory(d) => s.(targetDirectory := d)
  }

  /** The state after a sequence of calls, in order. */
  function Run(s: State, qs: seq<Request>): State
    decreases |qs|
  {
    if qs == [] then s else Run(Apply(s, qs[0]), qs[1..])
  }

  /** Every secret file on the disk has a non-blank content. */
  ghost predicate ContentsNotBlank(disk: Disk) {
    forall p :: p in disk ==> IsNotBlank(disk[p].secretContent)
  }

  // ---------------------------------------------------------------------------
  // Paths

  /** Within one directory, different secret ids name different files. */
  lemma SecretPathInjective(targetDirectory: Option<string>, a: string, b: string)
    requires SecretPath(targetDirectory, a) == SecretPath(targetDirectory, b)
    ensures a == b
  {
    var dir := Render(targetDirectory);
    var pa, pb := SecretPath(targetDirectory, a), SecretPath(targetDirectory, b);
    assert |a| == |b|;
    assert pa[|dir|..|dir| + |a|] == a;
    assert pb[|dir|..|dir| + |b|] == b;
  }

  /** Normalising an already normalised directory changes nothing. */
  lemma NormalizeDirectoryIdempotent(targetDirectory: string)
    ensures NormalizeDirectory(NormalizeDirectory(targetDirectory)) == NormalizeDirectory(targetDirectory)
  {
  }

  // ---------------------------------------------------------------------------
  // Validation comes first

  /** A null or blank id is refused with an argument error by every operation,
      before the disk is looked at, and the disk is left as it was. */
  lemma BlankIdRejected(targetDirectory: Option<string>, disk: Disk, secretId: Option<string>,
                        text: Option<string>, io: Io)
    requires IsBlank(secretId)
    ensures CreateSecretStep(targetDirectory, disk, secretId, text, io) == Step(Failed(IllegalArgument(SecretIdBlank)), disk)
    ensures UpdateSecretDescriptionStep(targetDirectory, disk, secretId, text, io) == Step(Failed(IllegalArgument(SecretIdBlank)), disk)
    ensures UpdateSecretValueStep(targetDirectory, disk, secretId, text, io) == Step(Failed(IllegalArgument(SecretIdBlank)), disk)
    ensures GetSecretResult(targetDirectory, disk, secretId, io) == Failure(IllegalArgument(SecretIdBlank))
    ensures DeleteSecretStep(targetDirectory, disk, secretId, io) == Step(Failed(IllegalArgument(SecretIdBlank)), disk)
  {
  }

  /** With a valid id, a null or blank content is refused by create and by
      update-value, whatever the disk holds. */
  lemma BlankContentRejected(targetDirectory: Option<string>, disk: Disk, secretId: Option<string>,
                             secretString: Option<string>, io: Io)
    requires IsNotBlank(secretId) && IsBlank(secretString)
    ensures CreateSecretStep(targetDirectory, disk, secretId, secretString, io) == Step(Failed(IllegalArgument(SecretValueBlank)), disk)
    ensures UpdateSecretValueStep(targetDirectory, disk, secretId, secretString, io) == Step(Failed(IllegalArgument(SecretValueBlank)), disk)
  {
  }

  /** A null description is refused, but a blank one is accepted: on an existing
      secret with a healthy disk, the empty description is written. */
  lemma DescriptionMayBeBlankButNotNull(targetDirectory: Option<string>, disk: Disk, secretId: Option<string>, io: Io)
    requires IsNotBlank(secretId)
    ensures UpdateSecretDescriptionStep(targetDirectory, disk, secretId, None, io) == Step(Failed(IllegalArgument(SecretDescriptionNull)), disk)
    ensures SecretPath(targetDirectory, secretId.value) in disk && io.Healthy? ==>
      UpdateSecretDescriptionStep(targetDirectory, disk, secretId, Some(""), io).outcome == Done
  {
  }

  // ---------------------------------------------------------------------------
  // Create

  /** Creating an id whose file exists is an argument error and leaves the
      existing record as it was. */
  lemma CreateDuplicateRejected(targetDirectory: Option<string>, disk: Disk, secretId: Option<string>,
                                secretString: Option<string>, io: Io)
    requires IsNotBlank(secretId) && IsNotBlank(secretString)
    requires SecretPath(targetDirectory, secretId.value) in disk
    ensures CreateSecretStep(targetDirectory, disk, secretId, secretString, io)
         == Step(Failed(IllegalArgument(AlreadyExists(secretId.value))), disk)
  {
  }

  /** Creating the same id twice: the second call fails and the first call's
      record survives it unchanged. */
  lemma CreateTwice(targetDirectory: Option<string>, disk: Disk, secretId: Option<string>,
                    first: Option<string>, second: Option<string>, io1: Io, io2: Io)
    requires CreateSecretStep(targetDirectory, disk, secretId, first, io1).outcome == Done
    requires IsNotBlank(second)
    ensures var d1 := CreateSecretStep(targetDirectory, disk, secretId, first, io1).disk;
      var s2 := CreateSecretStep(targetDirectory, d1, secretId, second, io2);
      s2.outcome == Failed(IllegalArgument(AlreadyExists(secretId.value))) &&
      s2.disk[SecretPath(targetDirectory, secretId.value)] == StoredSecret(first, None)
  {
  }

  /** A successful create adds exactly one file, at the id's path, and changes no
      other file. */
  lemma CreateAddsOneRecord(targetDirectory: Option<string>, disk: Disk, secretId: Option<string>,
                            secretString: Option<string>, io: Io)
    requires CreateSecretStep(targetDirectory, disk, secretId, secretString, io).outcome == Done
    ensures var d := CreateSecretStep(targetDirectory, disk, secretId, secretString, io).disk;
      var path := SecretPath(targetDirectory, secretId.value);
      path !in disk && d.Keys == disk.Keys + {path} &&
      d[path] == StoredSecret(secretString, None) &&
      forall p :: p in disk ==> d[p] == disk[p]
  {
  }

  /** Create then get: the content just stored is what is read back. */
  lemma CreateThenGet(targetDirectory: Option<string>, disk: Disk, secretId: Option<string>,
                      secretString: Option<string>, io: Io, readIo: Io)
    requires CreateSecretStep(targetDirectory, disk, secretId, secretString, io).outcome == Done
    requires readIo.Healthy?
    ensures GetSecretResult(targetDirectory, CreateSecretStep(targetDirectory, disk, secretId, secretString, io).disk,
                            secretId, readIo) == Success(secretString)
  {
  }

  // ---------------------------------------------------------------------------
  // Updates

  /** Updating a missing secret is an argument error, for both updates. */
  lemma UpdateMissingRejected(targetDirectory: Option<string>, disk: Disk, secretId: Option<string>,
                              text: Option<string>, io: Io)
    requires IsNotBlank(secretId) && SecretPath(targetDirectory, secretId.value) !in disk
    ensures IsNotBlank(text) ==>
      UpdateSecretValueStep(targetDirectory, disk, secretId, text, io)
        == Step(Failed(IllegalArgument(NoCurrentSecret(secretId.value))), disk)
    ensures text.Some? ==>
      UpdateSecretDescriptionStep(targetDirectory, disk, secretId, text, io)
        == Step(Failed(IllegalArgument(NoCurrentSecret(secretId.value))), disk)
  {
  }

  /** Update-value then get returns the new content, and the description is the
      one the secret had before. */
  lemma UpdateValueThenGet(targetDirectory: Option<string>, disk: Disk, secretId: Option<string>,
                           secretString: Option<string>, io: Io, readIo: Io)
    requires UpdateSecretValueStep(targetDirectory, disk, secretId, secretString, io).outcome == Done
    requires readIo.Healthy?
    ensures var d := UpdateSecretValueStep(targetDirectory, disk, secretId, secretString, io).disk;
      var path := SecretPath(targetDirectory, secretId.value);
      GetSecretResult(targetDirectory, d, secretId, readIo) == Success(secretString) &&
      d[path].secretDescription == disk[path].secretDescription
  {
  }

  /** Update-description keeps the content: get returns what it returned before,
      and the stored description is the new one. */
  lemma UpdateDescriptionKeepsContent(targetDirectory: Option<string>, disk: Disk, secretId: Option<string>,
                                      secretDescription: Option<string>, io: Io, readIo: Io)
    requires UpdateSecretDescriptionStep(targetDirectory, disk, secretId, secretDescription, io).outcome == Done
    requires readIo.Healthy?
    ensures var d := UpdateSecretDescriptionStep(targetDirectory, disk, secretId, secretDescription, io).disk;
      GetSecretResult(targetDirectory, d, secretId, readIo) == GetSecretResult(targetDirectory, disk, secretId, readIo) &&
      d[SecretPath(targetDirectory, secretId.value)].secretDescription == secretDescription
  {
  }

  /** An I/O failure on a write path is a service exception carrying the
      exception's message, and nothing is written. */
  lemma WriteFaultIsServiceException(targetDirectory: Option<string>, disk: Disk, secretId: Option<string>,
                                     text: Option<string>, message: string)
    requires IsNotBlank(secretId)
    ensures var path := SecretPath(targetDirectory, secretId.value);
      path !in disk && IsNotBlank(text) ==>
        CreateSecretStep(targetDirectory, disk, secretId, text, Fault(message))
          == Step(Failed(SMServiceException(CreateFailed + message)), disk)
    ensures var path := SecretPath(targetDirectory, secretId.value);
      path in disk && IsNotBlank(text) ==>
        UpdateSecretValueStep(targetDirectory, disk, secretId, text, Fault(message))
          == Step(Failed(SMServiceException(UpdateValueFailed + message)), disk)
    ensures var path := SecretPath(targetDirectory, secretId.value);
      path in disk && text.Some? ==>
        UpdateSecretDescriptionStep(targetDirectory, disk, secretId, text, Fault(message))
          == Step(Failed(SMServiceException(UpdateDescriptionFailed + message)), disk)
  {
  }

  // ---------------------------------------------------------------------------
  // Get

  /** Reading a missing secret, or one whose file cannot be read, is an argument
      error; an existing file read on a healthy disk yields its content. */
  lemma GetMissingRejected(targetDirectory: Option<string>, disk: Disk, secretId: Option<string>, io: Io)
    requires IsNotBlank(secretId)
    ensures SecretPath(targetDirectory, secretId.value) !in disk || io.Fault? ==>
      GetSecretResult(targetDirectory, disk, secretId, io) == Failure(IllegalArgument(NoSecret(secretId.value)))
    ensures SecretPath(targetDirectory, secretId.value) in disk && io.Healthy? ==>
      GetSecretResult(targetDirectory, disk, secretId, io) == Success(disk[SecretPath(targetDirectory, secretId.value)].secretContent)
  {
  }

  // ---------------------------------------------------------------------------
  // Delete

  /** Delete with a valid id never fails, whether or not the secret exists; on a
      healthy disk the file is gone afterwards and every other file is as it was. */
  lemma DeleteRemovesOnlyItsRecord(targetDirectory: Option<string>, disk: Disk, secretId: Option<string>, io: Io)
    requires IsNotBlank(secretId) && io.Healthy?
    ensures var s := DeleteSecretStep(targetDirectory, disk, secretId, io);
      var path := SecretPath(targetDirectory, secretId.value);
      s.outcome == Done && path !in s.disk && s.disk.Keys == disk.Keys - {path} &&
      forall p :: p in s.disk ==> s.disk[p] == disk[p]
  {
  }

  /** Deleting twice is deleting once: the second call also succeeds and the disk
      is the same as after the first. */
  lemma DeleteIdempotent(targetDirectory: Option<string>, disk: Disk, secretId: Option<string>, io1: Io, io2: Io)
    requires IsNotBlank(secretId)
    requires io1.Healthy?
    ensures var s1 := DeleteSecretStep(targetDirectory, disk, secretId, io1);
      DeleteSecretStep(targetDirectory, s1.disk, secretId, io2) == s1
  {
  }

  /** After a delete on a healthy disk, get reports the secret missing. */
  lemma DeleteThenGet(targetDirectory: Option<string>, disk: Disk, secretId: Option<string>, io: Io, readIo: Io)
    requires IsNotBlank(secretId) && io.Healthy?
    ensures GetSecretResult(targetDirectory, DeleteSecretStep(targetDirectory, disk, secretId, io).disk, secretId, readIo)
         == Failure(IllegalArgument(NoSecret(secretId.value)))
  {
  }

  // ---------------------------------------------------------------------------
  // Independence of distinct secrets

  /** A call about one id leaves the file of every other id exactly as it was
      (present with the same document, or absent). */
  lemma OtherSecretsUnaffected(s: State, q: Request, other: string)
    requires !q.SetTargetDirectory? ==> q.secretId != Some(other)
    ensures var path := SecretPath(s.targetDirectory, other);
      var t := Apply(s, q);
      (path in t.disk <==> path in s.disk) && (path in s.disk ==> t.disk[path] == s.disk[path])
  {
    if !q.SetTargetDirectory? && IsNotBlank(q.secretId) {
      var mine := SecretPath(s.targetDirectory, q.secretId.value);
      if mine == SecretPath(s.targetDirectory, other) {
        SecretPathInjective(s.targetDirectory, q.secretId.value, other);
        assert false;
      }
    }
  }

  // ---------------------------------------------------------------------------
  // An invariant of every run

  /** One call keeps every stored content non-blank: creates and value updates
      only write validated content, and description updates keep the content. */
  lemma ApplyKeepsContentsNotBlank(s: State, q: Request)
    requires ContentsNotBlank(s.disk)
    ensures ContentsNotBlank(Apply(s, q).disk)
  {
  }

  /** Any sequence of calls keeps every stored content non-blank. */
  lemma {:induction false} RunKeepsContentsNotBlank(s: State, qs: seq<Request>)
    requires ContentsNotBlank(s.disk)
    ensures ContentsNotBlank(Run(s, qs).disk)
    decreases |qs|
  {
    if qs != [] {
      ApplyKeepsContentsNotBlank(s, qs[0]);
      RunKeepsContentsNotBlank(Apply(s, qs[0]), qs[1..]);
    }
  }

  /** Starting from a disk this service wrote (for instance an empty one), get
      never silently returns a null or blank placeholder: whatever it returns
      after any sequence of calls is a non-blank content. */
  lemma {:induction false} GetNeverReturnsBlank(s: State, qs: seq<Request>, secretId: Option<string>, io: Io)
    requires ContentsNotBlank(s.disk)
    ensures var t := Run(s, qs);
      var r := GetSecretResult(t.targetDirectory, t.disk, secretId, io);
      r.Success? ==> IsNotBlank(r.value)
  {
    RunKeepsContentsNotBlank(s, qs);
  }

  // ---------------------------------------------------------------------------
  // The service used through its methods

  /** The db-pass walk-through on the default directory: create, read, update,
      read, delete, read. */
  method DbPassScenario(disk: Disk) returns (afterCreate: Result<Option<string>>, afterUpdate: Result<Option<string>>,
                                             afterDelete: Result<Option<string>>)
    requires "./target/db-pass.json" !in disk
    ensures afterCreate == Success(Some("s3cr3t"))
    ensures afterUpdate == Success(Some("n3wp4ss"))
    ensures afterDelete == Failure(IllegalArgument("There is no Secret with ID: db-pass"))
  {
    var service := new MockSMService.Default(disk);
    assert !IsWhitespace("db-pass"[0]) && !IsWhitespace("s3cr3t"[0]) && !IsWhitespace("n3wp4ss"[0]);
    assert SecretPath(service.targetDirectory, "db-pass") == "./target/db-pass.json";
    var created := service.CreateSecret(Some("db-pass"), Some("s3cr3t"), Healthy);
    afterCreate := service.GetSecret(Some("db-pass"), Healthy);
    var updated := service.UpdateSecretValue(Some("db-pass"), Some("n3wp4ss"), Healthy);
    afterUpdate := service.GetSecret(Some("db-pass"), Healthy);
    var deleted := service.DeleteSecret(Some("db-pass"), Healthy);
    afterDelete := service.GetSecret(Some("db-pass"), Healthy);
  }

  /** The constructor adds the missing trailing "/" and refuses a null or empty
      directory; the getter reports the normalised directory. */
  method ConstructorScenario(disk: Disk) returns (normalized: Option<string>, refusedNull: Result<MockSMService>,
                                                    refusedEmpty: Result<MockSMService>)
    ensures normalized == Some("./target/test-location/")
    ensures refusedNull == Failure(IllegalArgument(TargetDirectoryBlank))
    ensures refusedEmpty == Failure(IllegalArgument(TargetDirectoryBlank))
  {
    assert !IsWhitespace("./target/test-location"[0]);
    assert NormalizeDirectory("./target/test-location") == "./target/test-location/" by {
      assert "./target/test-location"[21..][0] != '/';
      assert "./target/test-location" + "/" == "./target/test-location/";
    }
    var made := MockSMService.Create(Some("./target/test-location"), disk);
    normalized := made.value.GetTargetDirectory();
    refusedNull := MockSMService.Create(None, disk);
    refusedEmpty := MockSMService.Create(Some(""), disk);
  }
}
