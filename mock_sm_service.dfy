/** The file-backed mock secret store (`edu.common.mock.MockSMService`).

    Each secret is one file at `targetDirectory + secretId + ".json"` holding the
    document `{secretContent, secretDescription}`; the file's existence is the
    secret's existence. The filesystem is a map from path to document (JSON
    encoding is abstracted: a document is written and read back verbatim), and
    whether the disk fails during a call is an input `io`.

    Every operation is given twice: as a pure step function on
    (directory, disk), which states what the call does, and as a method of the
    class `MockSMService`, which does it step by step the way the source does and
    is proved to agree with the step function. */
module Mock {
  import opened JavaText

  const FileExtensionType := ".json"

  /** The directory the no-argument constructor uses. */
  const DefaultDirectory := "./target/"

  /** The JSON document one secret file holds; a missing field is null. */
  datatype StoredSecret = StoredSecret(secretContent: Option<string>, secretDescription: Option<string>)

  /** The filesystem: which paths hold a secret file, and what it holds. */
  type Disk = map<string, StoredSecret>

  /** The two exception types the mock throws. */
  datatype Error =
    | IllegalArgument(message: string)     // Spring `Assert`, and every failure of the read path
    | SMServiceException(message: string)  // an `IOException` on a write path, wrapped

  /** A call that returns nothing either completes or throws. */
  datatype Outcome = Done | Failed(error: Error)

  /** A call that returns a value either returns it or throws. */
  datatype Result<T> = Success(value: T) | Failure(error: Error)

  /** Whether the disk raises an `IOException` while this call reads or writes,
      and the exception's message. */
  datatype Io = Healthy | Fault(message: string)

  /** What a state-changing call throws or completes with, and the disk after it. */
  datatype Step = Step(outcome: Outcome, disk: Disk)

  // The exception messages, as the source words them.
  const TargetDirectoryBlank := "Target Directory cannot be blank"
  const SecretIdBlank := "Secret Id cannot be blank"
  const SecretValueBlank := "Secret Value cannot be blank"
  const SecretDescriptionNull := "Secret Description cannot be null but can be blank"
  const CreateFailed := "Could not create Secret File: "
  const UpdateDescriptionFailed := "Could not Update Secret File Descrpition: "
  const UpdateValueFailed := "Could not Update Secret File: "

  function AlreadyExists(secretId: string): string {
    "Secret with ID \"" + secretId + "\" already exists"
  }

  function NoCurrentSecret(secretId: string): string {
    "There is currently no Secret with ID: " + secretId
  }

  function NoSecret(secretId: string): string {
    "There is no Secret with ID: " + secretId
  }

  /** The constructor's normalisation: the stored directory always ends with "/";
      one that already does is kept, any other gets exactly one "/" appended. */
  function NormalizeDirectory(targetDirectory: string): (r: string)
    ensures EndsWith(r, "/")
    ensures r == targetDirectory <==> EndsWith(targetDirectory, "/")
    ensures r != targetDirectory ==> r == targetDirectory + "/"
  {
    if EndsWith(targetDirectory, "/") then targetDirectory else targetDirectory + "/"
  }

  /** The file a secret lives in. The directory may be null after
      `setTargetDirectory(null)`; Java then spells it "null". */
  function SecretPath(targetDirectory: Option<string>, secretId: string): (p: string)
    ensures var dir := Render(targetDirectory);
      |p| == |dir| + |secretId| + |FileExtensionType| &&
      p[..|dir|] == dir && p[|dir|..|dir| + |secretId|] == secretId &&
      EndsWith(p, FileExtensionType)
  {
    Render(targetDirectory) + secretId + FileExtensionType
  }

  /** `createSecret`: validate the arguments, refuse an existing file, then write
      a fresh document with the content set and no description. */
  function CreateSecretStep(targetDirectory: Option<string>, disk: Disk,
                            secretId: Option<string>, secretString: Option<string>, io: Io): (s: Step)
    ensures s.outcome.Failed? ==> s.disk == disk
    ensures s.outcome.Done? <==>
      IsNotBlank(secretId) && IsNotBlank(secretString) &&
      SecretPath(targetDirectory, secretId.value) !in disk && io.Healthy?
    ensures s.outcome.Done? ==>
      s.disk == disk[SecretPath(targetDirectory, secretId.value) := StoredSecret(secretString, None)]
    ensures s.outcome.Failed? && s.outcome.error.SMServiceException? ==> io.Fault?
  {
    if IsBlank(secretId) then Step(Failed(IllegalArgument(SecretIdBlank)), disk)
    else if IsBlank(secretString) then Step(Failed(IllegalArgument(SecretValueBlank)), disk)
    else
      var path := SecretPath(targetDirectory, secretId.value);
      if path in disk then Step(Failed(IllegalArgument(AlreadyExists(secretId.value))), disk)
      else if io.Fault? then Step(Failed(SMServiceException(CreateFailed + io.message)), disk)
      else Step(Done, disk[path := StoredSecret(secretString, None)])
  }

  /** `updateSecretDescription`: validate, require the file, then read it,
      replace the description and write it back. A blank description is allowed. */
  function UpdateSecretDescriptionStep(targetDirectory: Option<string>, disk: Disk,
                                       secretId: Option<string>, secretDescription: Option<string>, io: Io): (s: Step)
    ensures s.outcome.Failed? ==> s.disk == disk
    ensures s.outcome.Done? <==>
      IsNotBlank(secretId) && secretDescription.Some? &&
      SecretPath(targetDirectory, secretId.value) in disk && io.Healthy?
    ensures s.outcome.Done? ==>
      var path := SecretPath(targetDirectory, secretId.value);
      s.disk == disk[path := StoredSecret(disk[path].secretContent, secretDescription)]
    ensures s.outcome.Failed? && s.outcome.error.SMServiceException? ==> io.Fault?
  {
    if IsBlank(secretId) then Step(Failed(IllegalArgument(SecretIdBlank)), disk)
    else if secretDescription.None? then Step(Failed(IllegalArgument(SecretDescriptionNull)), disk)
    else
      var path := SecretPath(targetDirectory, secretId.value);
      if path !in disk then Step(Failed(IllegalArgument(NoCurrentSecret(secretId.value))), disk)
      else if io.Fault? then Step(Failed(SMServiceException(UpdateDescriptionFailed + io.message)), disk)
      else Step(Done, disk[path := disk[path].(secretDescription := secretDescription)])
  }

  /** `updateSecretValue`: validate, require the file, then read it, replace the
      content and write it back. */
  function UpdateSecretValueStep(targetDirectory: Option<string>, disk: Disk,
                                 secretId: Option<string>, secretString: Option<string>, io: Io): (s: Step)
    ensures s.outcome.Failed? ==> s.disk == disk
    ensures s.outcome.Done? <==>
      IsNotBlank(secretId) && IsNotBlank(secretString) &&
      SecretPath(targetDirectory, secretId.value) in disk && io.Healthy?
    ensures s.outcome.Done? ==>
      var path := SecretPath(targetDirectory, secretId.value);
      s.disk == disk[path := StoredSecret(secretString, disk[path].secretDescription)]
    ensures s.outcome.Failed? && s.outcome.error.SMServiceException? ==> io.Fault?
  {
    if IsBlank(secretId) then Step(Failed(IllegalArgument(SecretIdBlank)), disk)
    else if IsBlank(secretString) then Step(Failed(IllegalArgument(SecretValueBlank)), disk)
    else
      var path := SecretPath(targetDirectory, secretId.value);
      if path !in disk then Step(Failed(IllegalArgument(NoCurrentSecret(secretId.value))), disk)
      else if io.Fault? then Step(Failed(SMServiceException(UpdateValueFailed + io.message)), disk)
      else Step(Done, disk[path := disk[path].(secretContent := secretString)])
  }

  /** `getSecret`: validate, then read the file and return its content. A missing
      or unreadable file is reported as an argument error, never as a service
      error. */
  function GetSecretResult(targetDirectory: Option<string>, disk: Disk,
                           secretId: Option<string>, io: Io): (r: Result<Option<string>>)
    ensures r.Success? <==>
      IsNotBlank(secretId) && SecretPath(targetDirectory, secretId.value) in disk && io.Healthy?
    ensures r.Success? ==> r.value == disk[SecretPath(targetDirectory, secretId.value)].secretContent
    ensures r.Failure? ==> r.error.IllegalArgument?
  {
    if IsBlank(secretId) then Failure(IllegalArgument(SecretIdBlank))
    else
      var path := SecretPath(targetDirectory, secretId.value);
      if path !in disk || io.Fault? then Failure(IllegalArgument(NoSecret(secretId.value)))
      else Success(disk[path].secretContent)
  }

  /** `deleteSecret`: validate, then delete the file quietly. A missing file is no
      error, and neither is a failed deletion, which leaves the file in place. */
  function DeleteSecretStep(targetDirectory: Option<string>, disk: Disk,
                            secretId: Option<string>, io: Io): (s: Step)
    ensures s.outcome.Failed? <==> IsBlank(secretId)
    ensures s.outcome.Failed? ==> s.outcome.error.IllegalArgument? && s.disk == disk
    ensures s.outcome.Done? && io.Healthy? ==>
      s.disk == disk - {SecretPath(targetDirectory, secretId.value)}
    ensures io.Fault? ==> s.disk == disk
  {
    if IsBlank(secretId) then Step(Failed(IllegalArgument(SecretIdBlank)), disk)
    else
      var path := SecretPath(targetDirectory, secretId.value);
      if io.Fault? then Step(Done, disk)
      else Step(Done, disk - {path})
  }

  /** `MockSecretFile`: the bean Jackson reads a document into and writes it from. */
  class MockSecretFile {
    var secretContent: Option<string>
    var secretDescription: Option<string>

    /** `new MockSecretFile()`: both fields null. */
    constructor ()
      ensures secretContent == None && secretDescription == None
    {
      secretContent := None;
      secretDescription := None;
    }

    /** `mapper.readValue(..., MockSecretFile.class)`: a bean holding the document's fields. */
    constructor Read(document: StoredSecret)
      ensures secretContent == document.secretContent
      ensures secretDescription == document.secretDescription
    {
      secretContent := document.secretContent;
      secretDescription := document.secretDescription;
    }

    /** `mapper.writeValueAsString(this)`: the document this bean is written as. */
    function Document(): (d: StoredSecret)
      reads this
      ensures d.secretContent == secretContent && d.secretDescription == secretDescription
    {
      StoredSecret(secretContent, secretDescription)
    }

    method SetSecretContent(secretContent: Option<string>)
      modifies this
      ensures this.secretContent == secretContent
      ensures secretDescription == old(secretDescription)
    {
      this.secretContent := secretContent;
    }

    method SetSecretDescription(secretDescription: Option<string>)
      modifies this
      ensures this.secretDescription == secretDescription
      ensures secretContent == old(secretContent)
    {
      this.secretDescription := secretDescription;
    }
  }

  /** The service: its target directory and the disk it stores secrets on. */
  class MockSMService {
    var targetDirectory: Option<string>
    var files: Disk

    /** `MockSMService()`: the one-argument constructor applied to "./target/". */
    constructor Default(disk: Disk)
      ensures targetDirectory == Some(DefaultDirectory)
      ensures files == disk
    {
      targetDirectory := Some(NormalizeDirectory(DefaultDirectory));
      files := disk;
    }

    /** `MockSMService(targetDirectory)` once its argument check has passed. */
    constructor (targetDirectory: string, disk: Disk)
      requires IsNotBlank(Some(targetDirectory))
      ensures this.targetDirectory == Some(NormalizeDirectory(targetDirectory))
      ensures files == disk
    {
      this.targetDirectory := Some(NormalizeDirectory(targetDirectory));
      files := disk;
    }

    /** `new MockSMService(targetDirectory)`, including its argument check: a null
        or blank directory is refused with an argument error. */
    static method Create(targetDirectory: Option<string>, disk: Disk) returns (r: Result<MockSMService>)
      ensures r.Failure? <==> IsBlank(targetDirectory)
      ensures r.Failure? ==> r.error == IllegalArgument(TargetDirectoryBlank)
      ensures r.Success? ==>
        fresh(r.value) && r.value.files == disk &&
        r.value.targetDirectory == Some(NormalizeDirectory(targetDirectory.value))
    {
      if IsBlank(targetDirectory) {
        return Failure(IllegalArgument(TargetDirectoryBlank));
      }
      var service := new MockSMService(targetDirectory.value, disk);
      return Success(service);
    }

    method CreateSecret(secretId: Option<string>, secretString: Option<string>, io: Io) returns (r: Outcome)
      modifies this
      ensures targetDirectory == old(targetDirectory)
      ensures Step(r, files) == CreateSecretStep(old(targetDirectory), old(files), secretId, secretString, io)
    {
      if IsBlank(secretId) {
        return Failed(IllegalArgument(SecretIdBlank));
      }
      if IsBlank(secretString) {
        return Failed(IllegalArgument(SecretValueBlank));
      }
      var fileToCreate := SecretPath(targetDirectory, secretId.value);
      if fileToCreate in files {
        return Failed(IllegalArgument(AlreadyExists(secretId.value)));
      }
      var content := new MockSecretFile();
      content.SetSecretContent(secretString);
      if io.Fault? {
        return Failed(SMServiceException(CreateFailed + io.message));
      }
      files := files[fileToCreate := content.Document()];
      return Done;
    }

    method UpdateSecretDescription(secretId: Option<string>, secretDescription: Option<string>, io: Io) returns (r: Outcome)
      modifies this
      ensures targetDirectory == old(targetDirectory)
      ensures Step(r, files) == UpdateSecretDescriptionStep(old(targetDirectory), old(files), secretId, secretDescription, io)
    {
      if IsBlank(secretId) {
        return Failed(IllegalArgument(SecretIdBlank));
      }
      if secretDescription.None? {
        return Failed(IllegalArgument(SecretDescriptionNull));
      }
      var existingSecret := SecretPath(targetDirectory, secretId.value);
      if existingSecret !in files {
        return Failed(IllegalArgument(NoCurrentSecret(secretId.value)));
      }
      if io.Fault? {
        return Failed(SMServiceException(UpdateDescriptionFailed + io.message));
      }
      var contentToWrite := new MockSecretFile.Read(files[existingSecret]);
      contentToWrite.SetSecretDescription(secretDescription);
      files := files[existingSecret := contentToWrite.Document()];
      return Done;
    }

    method UpdateSecretValue(secretId: Option<string>, secretString: Option<string>, io: Io) returns (r: Outcome)
      modifies this
      ensures targetDirectory == old(targetDirectory)
      ensures Step(r, files) == UpdateSecretValueStep(old(targetDirectory), old(files), secretId, secretString, io)
    {
      if IsBlank(secretId) {
        return Failed(IllegalArgument(SecretIdBlank));
      }
      if IsBlank(secretString) {
        return Failed(IllegalArgument(SecretValueBlank));
      }
      var existingSecret := SecretPath(targetDirectory, secretId.value);
      if existingSecret !in files {
        return Failed(IllegalArgument(NoCurrentSecret(secretId.value)));
      }
      if io.Fault? {
        return Failed(SMServiceException(UpdateValueFailed + io.message));
      }
      var contentToWrite := new MockSecretFile.Read(files[existingSecret]);
      contentToWrite.SetSecretContent(secretString);
      files := files[existingSecret := contentToWrite.Document()];
      return Done;
    }

    method GetSecret(secretId: Option<string>, io: Io) returns (r: Result<Option<string>>)
      ensures r == GetSecretResult(targetDirectory, files, secretId, io)
    {
      if IsBlank(secretId) {
        return Failure(IllegalArgument(SecretIdBlank));
      }
      var path := SecretPath(targetDirectory, secretId.value);
      if path !in files || io.Fault? {
        return Failure(IllegalArgument(NoSecret(secretId.value)));
      }
      var secretFile := new MockSecretFile.Read(files[path]);
      return Success(secretFile.secretContent);
    }

    method DeleteSecret(secretId: Option<string>, io: Io) returns (r: Outcome)
      modifies this
      ensures targetDirectory == old(targetDirectory)
      ensures Step(r, files) == DeleteSecretStep(old(targetDirectory), old(files), secretId, io)
    {
      if IsBlank(secretId) {
        return Failed(IllegalArgument(SecretIdBlank));
      }
      if io.Healthy? {
        files := files - {SecretPath(targetDirectory, secretId.value)};
      }
      return Done;
    }

    method GetTargetDirectory() returns (d: Option<string>)
      ensures d == targetDirectory
    {
      return targetDirectory;
    }

    /** `setTargetDirectory`: a plain assignment; unlike the constructor it neither
        checks nor normalises its argument. */
    method SetTargetDirectory(targetDirectory: Option<string>)
      modifies this
      ensures this.targetDirectory == targetDirectory
      ensures files == old(files)
    {
      this.targetDirectory := targetDirectory;
    }
  }
}
