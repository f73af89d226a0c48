/** The byte stream that BindToStorage opens on a file entry, and
    `stream_file_content`, which reads it in fixed-size chunks until the first
    empty read. */
module Streams {
  import opened Shell

  /** `stream_file_content`'s default `buffer_size`. */
  const BufferSize: nat := 8192

  /** The bytes of a list of chunks joined in order (`data += chunk`). */
  function Flatten(chunks: seq<seq<byte>>): seq<byte> {
    if chunks == [] then [] else Flatten(chunks[..|chunks| - 1]) + chunks[|chunks| - 1]
  }

  lemma FlattenAppend(chunks: seq<seq<byte>>, c: seq<byte>)
    ensures Flatten(chunks + [c]) == Flatten(chunks) + c
  {
    assert (chunks + [c])[..|chunks|] == chunks;
  }

  /** Every chunk holds between 1 and `bufferSize` bytes. */
  predicate ChunksWithin(chunks: seq<seq<byte>>, bufferSize: nat) {
    forall i :: 0 <= i < |chunks| ==> 0 < |chunks[i]| <= bufferSize
  }

  /** Moving one read chunk from the unread bytes to the chunk list keeps the
      chunks followed by the unread bytes equal to the file. */
  lemma ReadStep(chunks: seq<seq<byte>>, c: seq<byte>, before: seq<byte>, after: seq<byte>, content: seq<byte>, bufferSize: nat)
    requires Flatten(chunks) + before == content && before == c + after
    requires ChunksWithin(chunks, bufferSize) && 0 < |c| <= bufferSize
    ensures Flatten(chunks + [c]) + after == content
    ensures ChunksWithin(chunks + [c], bufferSize)
  {
    FlattenAppend(chunks, c);
    assert forall i :: 0 <= i < |chunks| ==> (chunks + [c])[i] == chunks[i];
  }

  /** An IStream over the bytes of one file entry. A read of `n` bytes returns
      some of the unread bytes, at most `n` of them; how many is the stream's
      choice. It returns nothing only when asked for none or at the end. */
  class ByteStream {
    const content: seq<byte>
    var pos: nat

    ghost predicate Valid()
      reads this
    {
      pos <= |content|
    }

    /** The bytes not read yet. */
    function Remaining(): seq<byte>
      reads this
      requires Valid()
    {
      content[pos..]
    }

    constructor (content: seq<byte>)
      ensures Valid() && this.content == content && Remaining() == content
    {
      this.content := content;
      pos := 0;
    }

    /** `IStream.Read(n)`. */
    method Read(n: nat) returns (chunk: seq<byte>)
      requires Valid()
      modifies this
      ensures Valid()
      ensures |chunk| <= n
      ensures chunk == [] <==> n == 0 || old(Remaining()) == []
      ensures old(Remaining()) == chunk + Remaining()
    {
      if n == 0 || pos == |content| {
        chunk := [];
      } else {
        var k :| 0 < k <= n && k <= |content| - pos;
        chunk := content[pos..pos + k];
        pos := pos + k;
      }
    }
  }

  /** `stream_file_content(folder, pidl, buffer_size)`: opens a fresh stream on
      the entry and collects the non-empty reads in order, stopping at the first
      empty one. With a positive buffer size the chunks make up the whole file;
      with buffer size 0 the first read is empty and nothing is yielded. */
  method StreamFileContent(entry: File, bufferSize: nat) returns (chunks: seq<seq<byte>>)
    ensures ChunksWithin(chunks, bufferSize)
    ensures bufferSize > 0 ==> Flatten(chunks) == entry.content
    ensures bufferSize == 0 ==> chunks == []
  {
    var istream := new ByteStream(entry.content);
    chunks := [];
    while true
      invariant istream.Valid() && istream.content == entry.content
      invariant Flatten(chunks) + istream.Remaining() == entry.content
      invariant ChunksWithin(chunks, bufferSize)
      invariant bufferSize == 0 ==> chunks == []
      decreases |istream.Remaining()|
    {
      ghost var before := istream.Remaining();
      var contents := istream.Read(bufferSize);
      if contents != [] {
        ReadStep(chunks, contents, before, istream.Remaining(), entry.content, bufferSize);
        chunks := chunks + [contents];
      } else {
        assert bufferSize > 0 ==> Flatten(chunks) == entry.content by {
          assert Flatten(chunks) + before == entry.content;
        }
        break;
      }
    }
  }
}
