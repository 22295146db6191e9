/**
 * Classification of stream identifiers. A leading `$` marks a system
 * stream, a leading `$$` a metastream: the stream that carries the metadata
 * of the stream named by the rest of the identifier.
 */
module SystemStreams {
  import opened JavaLang

  const PersistentSubscriptionConfig: string := "$persistentSubscriptionConfig"
  const AllStream: string := "$all"
  const StreamsStream: string := "$streams"
  const SettingsStream: string := "$settings"
  /** A prefix: statistics streams are named `$stats` followed by more text. */
  const StatsStreamPrefix: string := "$stats"
  const ScavengeStream: string := "$scavenges"

  /** The reserved identifiers declared next to the classifiers. */
  const ReservedNames: seq<string> :=
    [PersistentSubscriptionConfig, AllStream, StreamsStream, SettingsStream,
     StatsStreamPrefix, ScavengeStream]

  /** `isSystemStream`: `null` and the empty string are not system streams. */
  predicate IsSystemStream(streamId: JString)
  {
    streamId.Some? && |streamId.value| > 0 && streamId.value[0] == '$'
  }

  function MetastreamOf(streamId: string): (m: string)
    ensures |m| == |streamId| + 2
    ensures m[..2] == "$$" && m[2..] == streamId
  {
    "$$" + streamId
  }

  predicate IsMetastream(streamId: JString)
  {
    && streamId.Some?
    && |streamId.value| >= 2
    && streamId.value[0] == '$'
    && streamId.value[1] == '$'
  }

  /**
   * `originalStreamOf` is `substring(2)`: it drops the first two characters
   * whatever they are, and throws when there are fewer than two.
   */
  function OriginalStreamOf(metastreamId: string): (r: Result<string>)
    ensures r.Ok? <==> |metastreamId| >= 2
    ensures r.Ok? ==> metastreamId == metastreamId[..2] + r.value
    ensures r.Throws? ==> r.error == StringIndexOutOfBounds
  {
    if |metastreamId| < 2 then Throws(StringIndexOutOfBounds)
    else Ok(metastreamId[2..])
  }

  /** `metastreamOf` always yields a metastream, also for the empty identifier. */
  lemma MetastreamOfIsMetastream(streamId: string)
    ensures IsMetastream(Some(MetastreamOf(streamId)))
    ensures IsSystemStream(Some(MetastreamOf(streamId)))
  {
  }

  lemma OriginalOfMetastream(streamId: string)
    ensures OriginalStreamOf(MetastreamOf(streamId)) == Ok(streamId)
  {
  }

  /** On a metastream, `originalStreamOf` is a right inverse of `metastreamOf`. */
  lemma MetastreamOfOriginal(metastreamId: string)
    requires IsMetastream(Some(metastreamId))
    ensures OriginalStreamOf(metastreamId).Ok?
    ensures MetastreamOf(OriginalStreamOf(metastreamId).value) == metastreamId
  {
    var rest := metastreamId[2..];
    assert metastreamId == [metastreamId[0], metastreamId[1]] + rest;
  }

  /**
   * Without the `$$` check, `originalStreamOf` also accepts identifiers that
   * are not metastreams: `metastreamOf` then does not give the input back.
   */
  lemma OriginalOfNonMetastream(streamId: string)
    requires |streamId| >= 2 && !IsMetastream(Some(streamId))
    ensures OriginalStreamOf(streamId).Ok?
    ensures MetastreamOf(OriginalStreamOf(streamId).value) != streamId
  {
    var m := MetastreamOf(OriginalStreamOf(streamId).value);
    assert m[0] == '$' && m[1] == '$';
  }

  lemma MetastreamIsSystemStream(streamId: JString)
    requires IsMetastream(streamId)
    ensures IsSystemStream(streamId)
  {
  }

  lemma ReservedNamesAreSystemStreams()
    ensures forall k :: 0 <= k < |ReservedNames| ==> IsSystemStream(Some(ReservedNames[k]))
  {
  }

  lemma MetastreamScenario()
    ensures MetastreamOf("orders-1") == "$$orders-1"
    ensures IsSystemStream(Some("$$orders-1")) && IsMetastream(Some("$$orders-1"))
    ensures !IsMetastream(Some("orders-1"))
  {
  }
}
