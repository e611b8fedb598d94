/** The checksum cache of checksum.go: a map from version string to SHA-1,
    loaded lazily from a JSON file on first use and written back to it after
    every download. The file and the download mirror are objects of their
    own whose behaviour is given by their fields. */
module ChecksumCache {
  import opened Wrappers
  import opened Semver

  /** What the cache file holds as loadChecksums sees it. */
  datatype StoredFile =
    | Missing                                  // os.Open fails with ErrNotExist
    | Unreadable                               // os.Open fails otherwise
    | Corrupt                                  // the JSON does not decode
    | Stored(sums: map<string, string>)

  /** The map loadChecksums ends with: the file's contents, or the empty map
      when there is no readable, decodable file. */
  function LoadedMap(file: StoredFile): (m: map<string, string>)
    ensures file.Stored? ==> m == file.sums
    ensures !file.Stored? ==> m == map[]
  {
    if file.Stored? then file.sums else map[]
  }

  /** The download URL factorioGetChecksum is given for a version. */
  function DownloadUrl(v: Version): string
  {
    DownloadPrefix + ToString(v) + DownloadSuffix
  }

  const DownloadPrefix := "https://www.factorio.com/get-download/"
  const DownloadSuffix := "/headless/linux64"

  /** The answer to one download: an error, or the computed checksum (which
      may be empty). */
  datatype Answer = DownloadFailed | Downloaded(sum: string)

  /** The mirror's answer for url; a URL it does not serve fails. */
  function AnswerIn(answers: map<string, Answer>, url: string): Answer
  {
    if url in answers then answers[url] else DownloadFailed
  }

  /** What getChecksum answers for v when the cache holds m, the mirror
      answers as given and the disk is writable or not: the checksum (which
      may be empty), or None for the error it returns. */
  function Lookup(m: map<string, string>, answers: map<string, Answer>, writable: bool, v: Version): Option<string>
  {
    if ToString(v) in m then Some(m[ToString(v)])
    else
      match AnswerIn(answers, DownloadUrl(v))
      case DownloadFailed => None
      case Downloaded(sum) => if sum == "" || writable then Some(sum) else None
  }

  /** Storing a checksum that was downloaded and saved does not change what
      any later lookup answers. */
  lemma LookupAfterStore(m: map<string, string>, answers: map<string, Answer>, writable: bool, v: Version, sum: string)
    requires ToString(v) !in m && AnswerIn(answers, DownloadUrl(v)) == Downloaded(sum) && sum != "" && writable
    ensures forall w :: Lookup(m[ToString(v) := sum], answers, writable, w) == Lookup(m, answers, writable, w)
  {
    forall w
      ensures Lookup(m[ToString(v) := sum], answers, writable, w) == Lookup(m, answers, writable, w)
    {
      if ToString(w) == ToString(v) {
        assert DownloadUrl(w) == DownloadUrl(v);
      }
    }
  }

  /** What getChecksum returns: the checksum and whether err is nil. */
  datatype Reply = Reply(checksum: string, ok: bool)

  /** The checksum file on disk. writable says whether saveChecksums can open
      or create it. */
  class Disk {
    var file: StoredFile
    var writable: bool

    constructor (file: StoredFile, writable: bool)
      ensures this.file == file && this.writable == writable
    {
      this.file := file;
      this.writable := writable;
    }

    /** saveChecksums: the file now holds m, or nothing changes and the
        result reports the error. */
    method Save(m: map<string, string>) returns (ok: bool)
      modifies this
      ensures ok == old(writable) && writable == old(writable)
      ensures file == if ok then Stored(m) else old(file)
    {
      ok := writable;
      if ok {
        file := Stored(m);
      }
    }
  }

  /** The download site: a fixed answer per URL, and the log of the URLs
      requested so far. */
  class Mirror {
    const answers: map<string, Answer>
    var requests: seq<string>

    constructor (answers: map<string, Answer>)
      ensures this.answers == answers && requests == []
    {
      this.answers := answers;
      requests := [];
    }

    function AnswerFor(url: string): Answer
      reads this
    {
      AnswerIn(answers, url)
    }

    /** factorioGetChecksum(url). */
    method Download(url: string) returns (a: Answer)
      modifies this
      ensures a == AnswerFor(url)
      ensures requests == old(requests) + [url]
    {
      a := AnswerFor(url);
      requests := requests + [url];
    }
  }

  /** The checksums struct. Its zero value is unloaded with an empty map. */
  class Checksums {
    var sha1: map<string, string>
    var loaded: bool

    constructor ()
      ensures sha1 == map[] && !loaded
    {
      sha1 := map[];
      loaded := false;
    }

    /** The map a lookup works on: the current one once loaded, the file's
        contents before. */
    function Effective(disk: Disk): map<string, string>
      reads this, disk
    {
      if loaded then sha1 else LoadedMap(disk.file)
    }

    /** loadChecksums: the body runs only on the first call. */
    method LoadChecksums(disk: Disk)
      modifies this
      ensures loaded
      ensures sha1 == old(Effective(disk))
      ensures old(loaded) ==> sha1 == old(sha1)
      ensures !old(loaded) && disk.file.Stored? ==> sha1 == disk.file.sums
      ensures !old(loaded) && !disk.file.Stored? ==> sha1 == map[]
    {
      if loaded {
        return;
      }
      sha1 := map[];
      if disk.file.Missing? {
        loaded := true;
        return;
      }
      if disk.file.Stored? {
        sha1 := disk.file.sums;
      }
      loaded := true;
    }

    /** getChecksum: a hit answers from the map without a download; a miss
        downloads, and stores and saves a non-empty checksum. Entries already
        in the map are never changed, and a successful non-empty answer is
        the map's entry for the version. */
    method GetChecksum(version: Version, disk: Disk, mirror: Mirror) returns (reply: Reply)
      modifies this, disk, mirror
      ensures loaded
      ensures var before := old(Effective(disk));
              var key := ToString(version);
              if key in before then
                && reply == Reply(before[key], true)
                && sha1 == before
                && mirror.requests == old(mirror.requests)
                && disk.file == old(disk.file)
              else
                var answer := old(mirror.AnswerFor(DownloadUrl(version)));
                && mirror.requests == old(mirror.requests) + [DownloadUrl(version)]
                && (answer.DownloadFailed? ==>
                      reply == Reply("", false) && sha1 == before && disk.file == old(disk.file))
                && (answer == Downloaded("") ==>
                      reply == Reply("", true) && sha1 == before && disk.file == old(disk.file))
                && (answer.Downloaded? && answer.sum != "" ==>
                      && sha1 == before[key := answer.sum]
                      && disk.file == (if old(disk.writable) then Stored(sha1) else old(disk.file))
                      && reply == (if old(disk.writable) then Reply(answer.sum, true) else Reply("", false)))
      ensures forall k :: k in old(Effective(disk)) ==> k in sha1 && sha1[k] == old(Effective(disk))[k]
      ensures disk.writable == old(disk.writable)
      ensures reply.ok <==> Lookup(old(Effective(disk)), mirror.answers, old(disk.writable), version).Some?
      ensures reply.ok ==> reply.checksum == Lookup(old(Effective(disk)), mirror.answers, old(disk.writable), version).value
      ensures reply.ok ==>
                forall w :: Lookup(Effective(disk), mirror.answers, disk.writable, w)
                         == Lookup(old(Effective(disk)), mirror.answers, old(disk.writable), w)
      ensures reply.ok && reply.checksum != "" ==>
                ToString(version) in sha1 && sha1[ToString(version)] == reply.checksum
    {
      LoadChecksums(disk);
      var key := ToString(version);
      if key in sha1 {
        return Reply(sha1[key], true);
      }
      var answer := mirror.Download(DownloadUrl(version));
      if answer.DownloadFailed? {
        return Reply("", false);
      }
      if answer.sum == "" {
        return Reply("", true);
      }
      ghost var before := sha1;
      sha1 := sha1[key := answer.sum];
      var saved := disk.Save(sha1);
      if saved {
        LookupAfterStore(before, mirror.answers, disk.writable, version, answer.sum);
      }
      if !saved {
        return Reply("", false);
      }
      return Reply(answer.sum, true);
    }
  }

  /** A checksum saved by one watchdog process is found by the next one: a
      fresh cache over the saved file answers from it without downloading. */
  method RestartFindsSaved(version: Version, disk: Disk, mirror: Mirror) returns (first: Reply, second: Reply)
    modifies disk, mirror
    ensures first.ok && first.checksum != "" ==> second == first
    ensures first.ok && first.checksum != "" ==>
              mirror.requests == old(mirror.requests)
              || mirror.requests == old(mirror.requests) + [DownloadUrl(version)]
  {
    var c := new Checksums();
    first := c.GetChecksum(version, disk, mirror);
    var c' := new Checksums();
    second := c'.GetChecksum(version, disk, mirror);
  }
}
