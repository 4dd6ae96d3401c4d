/** Values shared by the replication coordinator's modules. */
module Types {

  /** One octet, as Java's `byte[]` elements are used here (unsigned view). */
  newtype byte = x: int | 0 <= x < 256

  type Bytes = seq<byte>

  /** A shard endpoint, as `NodeMapper.Shard.getUrl()` returns it. */
  type Url = string

  /** A Java reference that may be `null`: `None` stands for `null`. */
  datatype Option<+T> = None | Some(value: T)

  /** A hinted-handoff record: the key's bytes and the body that a replica missed. */
  datatype Hint = Hint(key: Bytes, value: Bytes)

  /** One call of `HintsManager.addHintForReplica(replicaUrl, hint)`. */
  datatype Submission = Submission(replica: Url, hint: Hint)
}
