/**
 * The logical index key `(streamId, version, hash)`: a mutable record with
 * getters and setters and no validation. The hash is 0 until one is set.
 */
module IndexKeys {
  import opened JavaLang

  class IndexKey {
    var streamId: JString
    var version: int64
    var hash: int64

    /** `IndexKey(streamId, version)`: delegates with a hash of 0. */
    constructor (streamId: JString, version: int64)
      ensures this.streamId == streamId && this.version == version && this.hash == 0
    {
      this.streamId := streamId;
      this.version := version;
      this.hash := 0;
    }

    /** `IndexKey(streamId, version, hash)`. */
    constructor WithHash(streamId: JString, version: int64, hash: int64)
      ensures this.streamId == streamId && this.version == version && this.hash == hash
    {
      this.streamId := streamId;
      this.version := version;
      this.hash := hash;
    }

    function GetStreamId(): JString
      reads this
    {
      streamId
    }

    function GetVersion(): int64
      reads this
    {
      version
    }

    function GetHash(): int64
      reads this
    {
      hash
    }

    method SetStreamId(streamId: JString)
      modifies this
      ensures this.streamId == streamId
      ensures version == old(version) && hash == old(hash)
    {
      this.streamId := streamId;
    }

    method SetVersion(version: int64)
      modifies this
      ensures this.version == version
      ensures streamId == old(streamId) && hash == old(hash)
    {
      this.version := version;
    }

    method SetHash(hash: int64)
      modifies this
      ensures this.hash == hash
      ensures streamId == old(streamId) && version == old(version)
    {
      this.hash := hash;
    }
  }

  /**
   * A client of the class: each getter returns what the constructor or the
   * matching setter stored last, whatever the other setters did meanwhile;
   * any identifier, `null` included, and any version, negative included,
   * is accepted.
   */
  method LastWriteWins(streamId: JString, version: int64, newVersion: int64, hash: int64)
    returns (readStreamId: JString, readVersion: int64, readHash: int64, defaultHash: int64)
    ensures readStreamId == streamId && readVersion == newVersion && readHash == hash
    ensures defaultHash == 0
  {
    var key := new IndexKey(streamId, version);
    defaultHash := key.GetHash();
    key.SetHash(hash);
    key.SetStreamId(None);
    key.SetVersion(newVersion);
    key.SetStreamId(streamId);
    readStreamId, readVersion, readHash := key.GetStreamId(), key.GetVersion(), key.GetHash();
  }
}
