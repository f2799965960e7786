/** Reading a workspace file in bounded byte ranges (`read_artifact_chunk`, rust/synapse-gui/src/git_fs.rs:1873-1910),
    on the file's bytes. */
module ArtifactChunks {
  import opened Wrappers
  import opened Unicode

  const MAX_ARTIFACT_CHUNK_BYTES: nat := 1024 * 1024

  datatype ArtifactChunk = ArtifactChunk(bytes: seq<Byte>, nextOffset: nat, eof: bool)

  /** `limit.clamp(1, MAX_ARTIFACT_CHUNK_BYTES)` */
  function Clamp(limit: nat): (r: nat)
    ensures 1 <= r <= MAX_ARTIFACT_CHUNK_BYTES
  {
    if limit < 1 then 1 else if limit > MAX_ARTIFACT_CHUNK_BYTES then MAX_ARTIFACT_CHUNK_BYTES else limit
  }

  /** One call; an offset past the end is an error. */
  function ReadArtifactChunk(file: seq<Byte>, offset: nat, limit: nat): Option<ArtifactChunk> {
    if offset > |file| then None
    else
      var bound := if Clamp(limit) < |file| - offset then Clamp(limit) else |file| - offset;
      Some(ArtifactChunk(file[offset..offset + bound], offset + bound, offset + bound >= |file|))
  }

  /** The chunks of a reader that goes on from `nextOffset` until `eof`; it may ask for a different limit each time. */
  function ReadOn(file: seq<Byte>, offset: nat, limits: nat -> nat): seq<ArtifactChunk>
    requires offset <= |file|
    decreases |file| - offset
  {
    var chunk := ReadArtifactChunk(file, offset, limits(offset)).value;
    if chunk.eof then [chunk] else [chunk] + ReadOn(file, chunk.nextOffset, limits)
  }

  function Bytes(chunks: seq<ArtifactChunk>): seq<Byte> {
    if chunks == [] then [] else chunks[0].bytes + Bytes(chunks[1..])
  }

  /** Whatever limits are asked for, the chunks put together are the rest of the file, no chunk is larger than the
      maximum, and only the last one says that the file ends. */
  lemma {:induction false} ChunksTileFile(file: seq<Byte>, offset: nat, limits: nat -> nat)
    requires offset <= |file|
    ensures var chunks := ReadOn(file, offset, limits);
            && Bytes(chunks) == file[offset..]
            && (forall i :: 0 <= i < |chunks| ==> |chunks[i].bytes| <= 1_048_576)
            && (forall i :: 0 <= i < |chunks| ==> (chunks[i].eof <==> i == |chunks| - 1))
    decreases |file| - offset
  {
    var chunk := ReadArtifactChunk(file, offset, limits(offset)).value;
    if chunk.eof {
      assert Bytes([chunk]) == chunk.bytes + Bytes([]) == file[offset..];
    } else {
      ChunksTileFile(file, chunk.nextOffset, limits);
      var rest := ReadOn(file, chunk.nextOffset, limits);
      assert ([chunk] + rest)[1..] == rest;
      assert file[offset..] == chunk.bytes + file[chunk.nextOffset..];
    }
  }

  /** A read is refused exactly when it starts behind the end of the file; at the end it is empty. */
  lemma {:induction false} ReadsUpToEnd(file: seq<Byte>, offset: nat, limit: nat)
    ensures ReadArtifactChunk(file, offset, limit).None? <==> offset > |file|
    ensures offset == |file| ==> ReadArtifactChunk(file, offset, limit) == Some(ArtifactChunk([], offset, true))
  {
    if offset == |file| { assert file[offset..offset] == []; }
  }

  /** With one limit throughout, no call is wasted: all but the last are full. */
  lemma {:induction false} ChunkCount(file: seq<Byte>, offset: nat, limit: nat)
    requires offset < |file|
    ensures var n := |ReadOn(file, offset, _ => limit)|;
            var c := if limit < 1 then 1 else if limit <= 1_048_576 then limit else 1_048_576;
            n >= 1 && (n - 1) * c < |file| - offset <= n * c
    decreases |file| - offset
  {
    var c := Clamp(limit);
    var chunk := ReadArtifactChunk(file, offset, limit).value;
    if !chunk.eof {
      ChunkCount(file, chunk.nextOffset, limit);
      var m := |ReadOn(file, chunk.nextOffset, _ => limit)|;
      assert |ReadOn(file, offset, _ => limit)| == m + 1;
      assert m * c == (m - 1) * c + c && (m + 1) * c == m * c + c;
    }
  }
}
