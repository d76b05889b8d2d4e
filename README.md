# Mock secret store, modelled and verified in Dafny

The repository offers one interface for storing named secrets, with two backends:
a pass-through to a cloud secret manager, and a file-backed mock,
`MockSMService`. This project models the mock. The mock keeps each secret as
one JSON file `{secretContent, secretDescription}` at
`targetDirectory + secretId + ".json"`. Whether that file exists decides
whether the secret exists.

- `java_text.dfy` (module `JavaText`): Java nullable strings (`Option`), Apache
  Commons `StringUtils.isBlank`/`isNotBlank` with `Character.isWhitespace`,
  `String.endsWith`, and how `+` renders a null operand (`"null"`).
- `mock_sm_service.dfy` (module `Mock`): the on-disk document
  (`StoredSecret`), the disk (a map from path to document), the two exception
  types (`IllegalArgument` for Spring `Assert` failures and for the read path,
  `SMServiceException` for wrapped I/O failures on the write paths), and one
  pure step function per operation. It also holds the classes `MockSecretFile`
  (the Jackson bean, with its setters) and `MockSMService` (fields
  `targetDirectory` and `files`). Each method of `MockSMService` does its
  operation step by step, as the Java does: validate, build the path, check
  that the file exists, read it into a bean, call a setter, write it back. Each
  method is proved to produce exactly the outcome and the new disk of its step
  function.
- `mock_sm_properties.dfy` (module `MockProperties`): properties that relate
  several calls. They cover validation-first, the duplicate-create guard, the
  round trips, field preservation, idempotent delete, and independence of
  distinct ids. There is also an invariant kept by any sequence of calls, and
  two client methods that drive the class with fixed values. One chains the
  get, update and delete tests of the integration suite and ends with the
  read of a missing secret. The other covers the constructor tests.

Inputs the Java takes from its environment are parameters here. The
existing disk is given to the constructors. Whether the disk raises an
`IOException` during a call is the argument `io: Io` (`Healthy` or
`Fault(message)`).

Two behaviours of the code are worth noting:
- The code does not always put a separator between directory and id:
  `setTargetDirectory` does not normalise its argument, and a null directory is
  spelled `"null"` in the path.
- `getSecret` returns Java null for a file that lacks `secretContent`. A
  non-blank result is guaranteed only for disks whose contents are all
  non-blank, which `GetNeverReturnsBlank` proves.

## Model

| member | source | states |
|---|---|---|
| `Mock.NormalizeDirectory` | src/main/java/edu/common/mock/MockSMService.java:67-70 | the stored directory ends with "/"; it equals the argument exactly when the argument already ends with "/", and otherwise it is the argument with one "/" appended |
| `Mock.CreateSecretStep` | src/main/java/edu/common/mock/MockSMService.java:80-105 | create succeeds exactly when id and content are non-blank, the file is absent and the disk is healthy; success adds the document (content, null description) at the id's path; any failure leaves the disk unchanged; a service exception only on an I/O fault |
| `Mock.UpdateSecretDescriptionStep` | src/main/java/edu/common/mock/MockSMService.java:114-142 | succeeds exactly when the id is non-blank, the description non-null, the file present and the disk healthy; success replaces only the description and keeps the content; any failure leaves the disk unchanged; a service exception only on an I/O fault |
| `Mock.UpdateSecretValueStep` | src/main/java/edu/common/mock/MockSMService.java:152-179 | succeeds exactly when id and content are non-blank, the file present and the disk healthy; success replaces only the content and keeps the description; any failure leaves the disk unchanged; a service exception only on an I/O fault |
| `Mock.GetSecretResult` | src/main/java/edu/common/mock/MockSMService.java:189-197 | returns a value exactly when the id is non-blank, the file present and readable, and that value is the file's content; every failure is an argument error, never a service exception |
| `Mock.DeleteSecretStep` | src/main/java/edu/common/mock/MockSMService.java:204-208 | fails only for a blank id, with an argument error and no change; on a healthy disk the id's file is removed; a failed deletion is swallowed and leaves the disk as it was |
| `Mock.SecretPath` | src/main/java/edu/common/mock/MockSMService.java:90 | the path is the directory as Java renders it ("null" for a null directory), then the id, then ".json", with nothing inserted between them (the same expression is at :96, :127, :164, :170, :193 and :207) |
| `Mock.MockSecretFile.Document` | src/main/java/edu/common/mock/MockSMService.java:96 | the document written holds exactly the bean's content and description, the inverse of `Read` (also at :133 and :170) |
| `Mock.MockSecretFile.constructor` | src/main/java/edu/common/mock/MockSMService.java:36 | a new bean has both fields null |
| `Mock.MockSecretFile.Read` | src/main/java/edu/common/mock/MockSMService.java:130 | deserialising a document yields a bean holding its two fields |
| `Mock.MockSecretFile.SetSecretContent` | src/main/java/edu/common/mock/MockSMService.java:42-44 | sets the content and leaves the description as it was |
| `Mock.MockSecretFile.SetSecretDescription` | src/main/java/edu/common/mock/MockSMService.java:50-52 | sets the description and leaves the content as it was |
| `Mock.MockSMService.Default` | src/main/java/edu/common/mock/MockSMService.java:58-60 | the no-argument constructor stores "./target/" and the given disk |
| `Mock.MockSMService.constructor` | src/main/java/edu/common/mock/MockSMService.java:65-72 | for a non-blank directory, stores the normalised directory and the given disk |
| `Mock.MockSMService.Create` | src/main/java/edu/common/mock/MockSMService.java:65-72 | a null or blank directory is refused with the argument error "Target Directory cannot be blank"; any other yields a fresh service with the normalised directory |
| `Mock.MockSMService.CreateSecret` | src/main/java/edu/common/mock/MockSMService.java:80-105 | its outcome and new disk are those of `CreateSecretStep`, and the directory is unchanged |
| `Mock.MockSMService.UpdateSecretDescription` | src/main/java/edu/common/mock/MockSMService.java:114-142 | its outcome and new disk are those of `UpdateSecretDescriptionStep`, and the directory is unchanged |
| `Mock.MockSMService.UpdateSecretValue` | src/main/java/edu/common/mock/MockSMService.java:152-179 | its outcome and new disk are those of `UpdateSecretValueStep`, and the directory is unchanged |
| `Mock.MockSMService.GetSecret` | src/main/java/edu/common/mock/MockSMService.java:189-197 | changes nothing and returns what `GetSecretResult` gives for the current directory and disk |
| `Mock.MockSMService.DeleteSecret` | src/main/java/edu/common/mock/MockSMService.java:204-208 | its outcome and new disk are those of `DeleteSecretStep`, and the directory is unchanged |
| `Mock.MockSMService.GetTargetDirectory` | src/main/java/edu/common/mock/MockSMService.java:210-212 | returns the stored directory |
| `Mock.MockSMService.SetTargetDirectory` | src/main/java/edu/common/mock/MockSMService.java:214-216 | stores the argument as given, null included, without normalising it; the disk is unchanged |
| `MockProperties.SecretPathInjective` | src/main/java/edu/common/mock/MockSMService.java:90 | within one directory, two ids with the same file path are the same id |
| `MockProperties.NormalizeDirectoryIdempotent` | src/main/java/edu/common/mock/MockSMService.java:67-69 | normalising a normalised directory changes nothing |
| `MockProperties.BlankIdRejected` | src/main/java/edu/common/mock/MockSMService.java:82 | a null or blank id makes create, both updates, get and delete fail with "Secret Id cannot be blank" before the disk is consulted, and the disk is unchanged (the same check is at :117, :153, :190 and :205) |
| `MockProperties.BlankContentRejected` | src/main/java/edu/common/mock/MockSMService.java:83 | with a valid id, a null or blank content makes create and update-value fail with "Secret Value cannot be blank" whatever the disk holds, and the disk is unchanged (update-value's check is at :154) |
| `MockProperties.DescriptionMayBeBlankButNotNull` | src/main/java/edu/common/mock/MockSMService.java:118 | a null description is refused with an argument error and no change; an empty description on an existing secret with a healthy disk is accepted |
| `MockProperties.CreateDuplicateRejected` | src/main/java/edu/common/mock/MockSMService.java:90-91 | create on an id whose file exists fails with the "already exists" argument error and leaves the disk unchanged |
| `MockProperties.CreateTwice` | src/test-integration/java/edu/common/mock/MockSMServiceIntegrationTest.java:122-129 | after a successful create, a second create of the same id fails with the "already exists" error and the first record is still (content, null description) |
| `MockProperties.CreateAddsOneRecord` | src/main/java/edu/common/mock/MockSMService.java:93-96 | a successful create adds exactly one path, the id's, holding the content and no description, and every earlier file is unchanged |
| `MockProperties.CreateThenGet` | src/test-integration/java/edu/common/mock/MockSMServiceIntegrationTest.java:131-139 | after a successful create, a healthy get returns exactly the content created |
| `MockProperties.UpdateMissingRejected` | src/main/java/edu/common/mock/MockSMService.java:164-165 | updating the value or the description of an absent secret fails with "There is currently no Secret with ID" and no change (the description check is at :127-128) |
| `MockProperties.UpdateValueThenGet` | src/main/java/edu/common/mock/MockSMService.java:167-170 | after a successful update-value, get returns the new content and the stored description is the one before |
| `MockProperties.UpdateDescriptionKeepsContent` | src/main/java/edu/common/mock/MockSMService.java:130-133 | after a successful update-description, get returns what it returned before and the stored description is the new one |
| `MockProperties.WriteFaultIsServiceException` | src/main/java/edu/common/mock/MockSMService.java:102-104 | once validation and the existence check pass (for update-description any non-null description, blank included), an I/O fault on create, update-value or update-description is a service exception with that path's prefix and the fault's message, and nothing is written (the update paths are at :139-141 and :176-178) |
| `MockProperties.GetMissingRejected` | src/main/java/edu/common/mock/MockSMService.java:192-196 | get of an absent or unreadable file fails with the argument error "There is no Secret with ID: " followed by the id; an existing file read on a healthy disk yields its stored content |
| `MockProperties.DeleteRemovesOnlyItsRecord` | src/main/java/edu/common/mock/MockSMService.java:207 | delete with a valid id on a healthy disk succeeds whether or not the file exists; afterwards the path is absent and every other file is unchanged |
| `MockProperties.DeleteIdempotent` | src/test-integration/java/edu/common/mock/MockSMServiceIntegrationTest.java:205-218 | after a healthy first delete, a second delete of the same id under any I/O also succeeds and yields the same disk as the first |
| `MockProperties.DeleteThenGet` | src/test-integration/java/edu/common/mock/MockSMServiceIntegrationTest.java:205-212 | after a healthy delete, get reports the secret missing |
| `MockProperties.OtherSecretsUnaffected` | src/main/java/edu/common/mock/MockSMService.java:90-96 | any call about one id leaves every other id's path exactly as it was in the same directory: present with the same document, or absent |
| `MockProperties.ApplyKeepsContentsNotBlank` | src/main/java/edu/common/mock/MockSMService.java:82-96 | one call of any operation keeps every stored content non-null and non-blank |
| `MockProperties.RunKeepsContentsNotBlank` | src/main/java/edu/common/mock/MockSMService.java:80-208 | any sequence of calls keeps every stored content non-null and non-blank |
| `MockProperties.GetNeverReturnsBlank` | src/main/java/edu/common/mock/MockSMService.java:189-197 | starting from a disk whose contents are non-blank, such as an empty one, a successful get after any sequence of calls returns non-blank content, never a null or empty placeholder |
| `MockProperties.DbPassScenario` | src/test-integration/java/edu/common/mock/MockSMServiceIntegrationTest.java:131-212 | chains the getSecret (:131-139), updateSecret (:155-165), deleteSecret (:205-212) and getSecretDoesNotExist (:141-144) tests with fixed values, through the class: create "db-pass"/"s3cr3t" then get returns "s3cr3t"; update to "n3wp4ss" then get returns "n3wp4ss"; delete then get fails with "There is no Secret with ID: db-pass" |
| `MockProperties.ConstructorScenario` | src/test-integration/java/edu/common/mock/MockSMServiceIntegrationTest.java:66-82 | "./target/test-location" is stored as "./target/test-location/"; a null or empty directory is refused with the argument error |

## Left out

- The cloud backend (`AWSSecretManagerService`) and its Spring configuration: a pass-through to a foreign SDK client and the network.
- `ISecretManagerService`: it only declares the four operations, and the mock's methods model them.
- JSON encoding through Jackson, charsets and `FileUtils`: a document is stored and read back unchanged. Extra or missing JSON fields, and malformed files, are not represented. An unreadable file is an I/O fault (`io`).
- A failed write is assumed to leave the file as it was. A partly written file is not modelled.
- `deleteQuietly` also deletes directories recursively. The disk here holds only secret files.
- The filesystem's own path resolution is not modelled. Paths are compared as strings, so `a//b.json` and `a/b.json` are different keys. An id containing `../` names a path outside the directory like any other string. Ids such as `a`, `./a`, and `x/../a` when `x` exists, name the same file in Java, and so do `A` and `a` on a case-insensitive file system; here they are different keys.
- Two service objects do not share a disk: each holds its own copy of `files`, while in Java all instances and any direct `File` access share one file system.
- The `ObjectMapper` field, logging and `StopWatch` timing: no observable behaviour.
- Concurrency: the model is single-threaded. The check-then-create and read-modify-write races are not represented.
- The getters of `MockSecretFile`: the model reads its fields directly.
- `IsWhitespace` follows current Unicode tables. The JDK used may be older, which matters only for U+180E.
- An `IOException` whose message is null: `Fault` carries the message text as Java would render it.
- "Directory ends with `/`" is not an invariant of the class: `SetTargetDirectory` stores its argument unchanged, as the source does.
