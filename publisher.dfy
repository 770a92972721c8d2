/**
 * Publishing (`create_storage_container`, `upload_blob`). The storage
 * account is seen only through its container names and each container's
 * blob names; the `BlockBlobService` client, its credentials and endpoint
 * are outside the model. Both operations are create-if-absent.
 */
module Publisher {
  import opened Wrappers
  import opened ArtifactLocator
  import opened Naming

  /** One `create_blob_from_path(container_name, blob_name, file_path)` call. */
  datatype Upload = Upload(container: string, blob: string, file: string)

  /**
   * The account: each container name mapped to the names of its blobs (so
   * the container names are the keys), with the log of containers created
   * and blobs uploaded.
   */
  datatype StoreState = StoreState(contents: map<string, set<string>>, created: seq<string>, uploads: seq<Upload>)

  /** What `upload_blob` did. */
  datatype UploadOutcome =
    | Uploaded
    | AlreadyPresent
    | ContainerMissing  // `list_blobs` on an absent container raises

  /** `create_storage_container`: create the host's container unless it is listed. */
  function CreateContainer(s: StoreState, hostname: string): (r: StoreState)
    ensures ContainerName(hostname) in r.contents
    ensures ContainerName(hostname) in s.contents ==> r == s
    ensures ContainerName(hostname) !in s.contents ==>
      && r.contents == s.contents[ContainerName(hostname) := {}]
      && r.created == s.created + [ContainerName(hostname)]
      && r.uploads == s.uploads
  {
    var name := ContainerName(hostname);
    if name !in s.contents.Keys then
      s.(contents := s.contents[name := {}], created := s.created + [name])
    else
      s
  }

  /** A second `create_storage_container` for the same host changes nothing. */
  lemma CreateContainerIdempotent(s: StoreState, hostname: string)
    ensures CreateContainer(CreateContainer(s, hostname), hostname) == CreateContainer(s, hostname)
  {
  }

  /**
   * `upload_blob` on date `date`: upload the archive as `messages-YYYYMMDD`
   * into the host's container unless a blob of that name is listed there.
   */
  function PutMessagesBlob(s: StoreState, hostname: string, date: Date): (r: (StoreState, UploadOutcome))
    requires ValidDate(date)
    ensures var (s', outcome) := r;
      var c, b := ContainerName(hostname), BlobName(date);
      && (outcome == ContainerMissing <==> c !in s.contents)
      && (outcome == AlreadyPresent <==> c in s.contents && b in s.contents[c])
      && (outcome != Uploaded ==> s' == s)
      && (outcome == Uploaded ==>
            && s'.contents == s.contents[c := s.contents[c] + {b}]
            && s'.uploads == s.uploads + [Upload(c, b, ArchivePath())]
            && s'.created == s.created)
  {
    var container, blob := ContainerName(hostname), BlobName(date);
    if container !in s.contents then
      (s, ContainerMissing)
    else if blob in s.contents[container] then
      (s, AlreadyPresent)
    else
      (s.(contents := s.contents[container := s.contents[container] + {blob}],
          uploads := s.uploads + [Upload(container, blob, ArchivePath())]),
       Uploaded)
  }

  /**
   * After an upload the blob is present and every other container and blob
   * is as it was; a second upload on the same day uploads nothing.
   */
  lemma UploadTwiceUploadsOnce(s: StoreState, hostname: string, date: Date)
    requires ValidDate(date)
    requires ContainerName(hostname) in s.contents
    ensures var (s1, _) := PutMessagesBlob(s, hostname, date);
      var c := ContainerName(hostname);
      && c in s1.contents && BlobName(date) in s1.contents[c]
      && s1.contents.Keys == s.contents.Keys
      && (forall c' :: c' in s.contents && c' != c ==> s1.contents[c'] == s.contents[c'])
      && s.contents[c] <= s1.contents[c]
      && PutMessagesBlob(s1, hostname, date) == (s1, AlreadyPresent)
  {
  }

  /** Once the container has been ensured, the upload never finds it missing. */
  lemma CreateThenUploadFindsContainer(s: StoreState, hostname: string, date: Date)
    requires ValidDate(date)
    ensures PutMessagesBlob(CreateContainer(s, hostname), hostname, date).1 != ContainerMissing
  {
  }

  /** The uploaded file is the archive `archive_messages` writes. */
  lemma UploadSendsArchive(s: StoreState, hostname: string, date: Date, messagesPath: string)
    requires ValidDate(date)
    requires PutMessagesBlob(s, hostname, date).1 == Uploaded
    ensures var s1 := PutMessagesBlob(s, hostname, date).0;
      && |s1.uploads| > 0
      && s1.uploads[|s1.uploads| - 1].file == ArchiveMessages(Some(messagesPath)).value.target
  {
  }

  /** An existing blob `messages-20240101` is not uploaded again on 1 January 2024. */
  lemma Digits2024()
    ensures Digits(2024, 4) == "2024"
  {
    assert Digits(2, 1) == "2" && Digits(20, 2) == "20" && Digits(202, 3) == "202";
  }

  lemma Digits01()
    ensures Digits(1, 2) == "01"
  {
    assert Digits(0, 1) == "0";
  }

  /** The blob name for 1 January 2024. */
  lemma NewYear2024BlobName()
    ensures BlobName(Date(2024, 1, 1)) == "messages-20240101"
  {
    Digits2024();
    Digits01();
  }

  lemma ExistingBlobNotReuploaded(s: StoreState, hostname: string)
    requires ContainerName(hostname) in s.contents
    requires "messages-20240101" in s.contents[ContainerName(hostname)]
    ensures PutMessagesBlob(s, hostname, Date(2024, 1, 1)) == (s, AlreadyPresent)
  {
    NewYear2024BlobName();
  }

  /** The storage account, whose containers and blobs the two routines change in place. */
  class StorageAccount {
    var contents: map<string, set<string>>
    var created: seq<string>
    var uploads: seq<Upload>

    function State(): StoreState
      reads this
    {
      StoreState(contents, created, uploads)
    }

    constructor (contents: map<string, set<string>>)
      ensures State() == StoreState(contents, [], [])
    {
      this.contents := contents;
      this.created := [];
      this.uploads := [];
    }

    /** `create_storage_container(block_blob_service)` on the host named `hostname`. */
    method CreateStorageContainer(hostname: string)
      modifies this
      ensures State() == CreateContainer(old(State()), hostname)
      ensures ContainerName(hostname) in contents
    {
      var containers := contents.Keys;
      var subjectContainerName := ContainerName(hostname);
      if subjectContainerName !in containers {
        contents := contents[subjectContainerName := {}];
        created := created + [subjectContainerName];
      }
    }

    /** `upload_blob(block_blob_service)` on the host named `hostname`, on UTC day `date`. */
    method UploadBlob(hostname: string, date: Date) returns (outcome: UploadOutcome)
      requires ValidDate(date)
      modifies this
      ensures (State(), outcome) == PutMessagesBlob(old(State()), hostname, date)
    {
      var blobName := BlobName(date);
      var subjectContainerName := ContainerName(hostname);
      if subjectContainerName !in contents {
        return ContainerMissing;
      }
      var blobs := contents[subjectContainerName];
      if blobName !in blobs {
        contents := contents[subjectContainerName := blobs + {blobName}];
        uploads := uploads + [Upload(subjectContainerName, blobName, ArchivePath())];
        outcome := Uploaded;
      } else {
        outcome := AlreadyPresent;
      }
    }
  }
}
