/**
 * The retrieval memory of the chat backend: the faiss index and the list of
 * text chunks kept position-aligned with it, the two files they are saved
 * to, and the backend operations that read or change them.
 */
module MemoryStore {
  import opened Wrappers
  import opened Chunking
  import opened FlatIndex
  import opened Retrieval

  /** What the two saved files hold: the index image and the pickled chunk list. */
  datatype Snapshot = Snapshot(vectors: seq<Vector>, chunks: seq<string>)

  /** The upload route's answer: a 400 for a name not ending in `.txt`, else the segment count it reports. */
  datatype UploadReply = Rejected | Uploaded(segments: nat)

  /** The number of chunks the chat route asks for. */
  const ChatK: nat := 3

  /** Python's `str.endswith(suffix)`. */
  predicate EndsWith(s: string, suffix: string) {
    |suffix| <= |s| && s[|s| - |suffix|..] == suffix
  }

  /** `s` ends with `suffix` exactly when it is something followed by `suffix`. */
  lemma EndsWithIff(s: string, suffix: string)
    ensures EndsWith(s, suffix) <==> exists p :: p + suffix == s
  {
    if EndsWith(s, suffix) {
      assert s[..|s| - |suffix|] + suffix == s;
    }
    if exists p :: p + suffix == s {
      var p :| p + suffix == s;
      assert s[|p|..] == suffix;
    }
  }

  /** The embeddings of `texts`, in order. */
  function EmbedAll(embed: string -> Vector, texts: seq<string>): (vs: seq<Vector>)
    ensures |vs| == |texts| && forall i :: 0 <= i < |texts| ==> vs[i] == embed(texts[i])
  {
    seq(|texts|, i requires 0 <= i < |texts| => embed(texts[i]))
  }

  /** Embedding works text by text. */
  lemma EmbedAllAppend(embed: string -> Vector, a: seq<string>, b: seq<string>)
    ensures EmbedAll(embed, a + b) == EmbedAll(embed, a) + EmbedAll(embed, b)
  {
  }

  class Store {
    /** The sentence embedder: a deterministic function from text to a DIM-long vector. */
    const embed: string -> Vector
    /** The module-level `index`. */
    var index: IndexFlatL2
    /** The module-level `text_chunks`. */
    var textChunks: seq<string>
    /** What the index file and the chunk file hold; None while there is no index file. */
    ghost var persisted: Option<Snapshot>

    /** The central consistency condition: one vector per chunk. */
    predicate Aligned()
      reads this, index
    {
      index.NTotal() == |textChunks|
    }

    /** The two files hold exactly the in-memory index and chunk list. */
    ghost predicate Saved()
      reads this, index
    {
      persisted == Some(Snapshot(index.data, textChunks))
    }

    /**
     * Startup: load the saved pair when the index file exists, else start
     * from a fresh empty index of dimension DIM and no chunks. The saved
     * counts are not compared, so the store starts aligned exactly when the
     * saved pair is.
     */
    constructor Startup(embed: string -> Vector, saved: Option<Snapshot>)
      ensures this.embed == embed && fresh(index) && index.d == DIM
      ensures index.data == (if saved.Some? then saved.value.vectors else [])
      ensures textChunks == (if saved.Some? then saved.value.chunks else [])
      ensures persisted == saved
      ensures Aligned() <==> saved.None? || |saved.value.vectors| == |saved.value.chunks|
    {
      this.embed := embed;
      if saved.Some? {
        index := new IndexFlatL2.Read(saved.value.vectors);
        textChunks := saved.value.chunks;
      } else {
        index := new IndexFlatL2(DIM);
        textChunks := [];
      }
      persisted := saved;
    }

    /**
     * `add_to_store`: append the text's embedding to the index and the text
     * to the chunk list, then save both. Earlier entries are untouched, both
     * counts grow by one, and the files then hold the in-memory pair.
     */
    method AddToStore(text: string)
      modifies this, index
      ensures index == old(index) && index.d == old(index.d)
      ensures index.data == old(index.data) + [embed(text)]
      ensures textChunks == old(textChunks) + [text]
      ensures index.NTotal() == old(index.NTotal()) + 1 && |textChunks| == old(|textChunks|) + 1
      ensures persisted == Some(Snapshot(index.data, textChunks))
      ensures Aligned() <==> old(Aligned())
    {
      var vector := embed(text);
      index.Add(vector);
      textChunks := textChunks + [text];
      persisted := Some(Snapshot(index.data, textChunks));
    }

    /**
     * `get_relevant_context`: an empty index gives no context; otherwise the
     * query's embedding is searched and the labels are mapped back to chunks
     * by the comprehension as written (None: it raised IndexError). On an
     * aligned store the result is the chunks of the `min(k, ntotal)` nearest
     * vectors, nearest first, followed by a copy of the last chunk for every
     * slot faiss padded with -1.
     */
    method GetRelevantContext(query: string, k: nat) returns (r: Option<seq<string>>)
      requires k >= 1
      ensures index.NTotal() == 0 ==> r == Some([])
      ensures index.NTotal() > 0 ==> r == Lookup(textChunks, Search(index.data, embed(query), k))
      ensures r.Some? ==> |r.value| <= k && forall c :: c in r.value ==> c in textChunks
      ensures Aligned() && index.NTotal() > 0 ==>
                var labels := Search(index.data, embed(query), k);
                var m := Min(k, index.NTotal());
                r == Some(Context(textChunks, labels) + Repeat(textChunks[|textChunks| - 1], k - m))
                && |Context(textChunks, labels)| == m
                && forall a :: 0 <= a < m ==> r.value[a] == textChunks[labels[a]]
    {
      if index.NTotal() == 0 {
        return Some([]);
      }
      var vector := embed(query);
      var labels := index.SearchOne(vector, k);
      r := Lookup(textChunks, labels);
      if Aligned() {
        LookupOfPadded(textChunks, labels);
        ContextOfPadded(textChunks, labels);
        assert forall a :: 0 <= a < Min(k, index.NTotal()) ==> r.value[a] == Context(textChunks, labels)[a];
      }
    }

    /**
     * `reset_system`: a fresh empty index of dimension DIM and an emptied
     * chunk list. The files are not rewritten, so what is saved stays as it
     * was. The new state does not depend on the old one, so resetting twice
     * is resetting once.
     */
    method ResetSystem()
      modifies this
      ensures fresh(index) && index.d == DIM && index.data == [] && textChunks == []
      ensures persisted == old(persisted)
      ensures Aligned()
    {
      index := new IndexFlatL2(DIM);
      textChunks := [];
    }

    /**
     * The upload route: a name that does not end in `.txt` is rejected
     * before the store is touched. Otherwise the contents are split on blank
     * lines and every segment that is not blank after stripping is added, in
     * order; the reply counts all raw segments, ingested or not.
     */
    method Upload(filename: string, contents: string) returns (reply: UploadReply)
      modifies this, index
      ensures index == old(index) && index.d == old(index.d)
      ensures !EndsWith(filename, ".txt") ==>
                reply == Rejected && unchanged(this) && unchanged(index)
      ensures EndsWith(filename, ".txt") ==>
                reply == Uploaded(|Split(contents)|)
                && textChunks == old(textChunks) + Chunks(contents)
                && index.data == old(index.data) + EmbedAll(embed, Chunks(contents))
                && persisted == (if Chunks(contents) == [] then old(persisted)
                                 else Some(Snapshot(index.data, textChunks)))
      ensures Aligned() <==> old(Aligned())
    {
      if !EndsWith(filename, ".txt") {
        return Rejected;
      }
      var segments := Split(contents);
      IngestSegments(segments);
      return Uploaded(|segments|);
    }

    /**
     * Starting from chunk list `chunks0`, vectors `data0` and files `persisted0`,
     * the texts `done` have been added in order: appended to both, and saved
     * unless there were none.
     */
    ghost predicate Extended(chunks0: seq<string>, data0: seq<Vector>, persisted0: Option<Snapshot>, done: seq<string>)
      reads this, index
    {
      textChunks == chunks0 + done
      && index.data == data0 + EmbedAll(embed, done)
      && (if done == [] then persisted == persisted0 else Saved())
    }

    /**
     * The upload loop: every segment that is not blank after stripping is
     * added with `AddToStore`, in order. The files are rewritten after each
     * addition, so they end up holding the in-memory pair unless nothing
     * was added.
     */
    method IngestSegments(segments: seq<string>)
      modifies this, index
      ensures index == old(index) && index.d == old(index.d)
      ensures Extended(old(textChunks), old(index.data), old(persisted), Keep(segments))
    {
      ghost var chunks0, data0, persisted0 := textChunks, index.data, persisted;
      var i := 0;
      ghost var done: seq<string> := [];
      while i < |segments|
        invariant 0 <= i <= |segments|
        invariant done == Keep(segments[..i])
        invariant index == old(index) && index.d == old(index.d)
        invariant Extended(chunks0, data0, persisted0, done)
      {
        ghost var added := IngestSegment(segments[i], chunks0, data0, persisted0, done);
        KeepNext(segments, i);
        done := done + added;
        i := i + 1;
      }
      assert segments[..|segments|] == segments;
    }

    /**
     * One iteration of the upload loop: strip the segment and add it unless
     * that leaves nothing. The ghost parameters name the progress made so
     * far, which the iteration extends by what it adds.
     */
    method IngestSegment(segment: string, ghost chunks0: seq<string>, ghost data0: seq<Vector>,
                         ghost persisted0: Option<Snapshot>, ghost done: seq<string>)
      returns (ghost added: seq<string>)
      requires Extended(chunks0, data0, persisted0, done)
      modifies this, index
      ensures added == Keep([segment])
      ensures index == old(index) && index.d == old(index.d)
      ensures Extended(chunks0, data0, persisted0, done + added)
    {
      KeepOne(segment);
      var chunk := Strip(segment);
      if chunk != [] {
        AddToStore(chunk);
        added := [chunk];
        EmbedAllAppend(embed, done, added);
        assert textChunks == chunks0 + (done + added);
        assert index.data == data0 + (EmbedAll(embed, done) + EmbedAll(embed, added));
      } else {
        added := [];
        assert done + added == done;
      }
    }
  }

  /** What the upload route needs to know about the example request. */
  lemma UploadExampleFacts(embed: string -> Vector, contents: string)
    requires contents == "para one\n\npara two\n\n\n"
    ensures EndsWith("notes.txt", ".txt")
    ensures |Split(contents)| == 3
    ensures Chunks(contents) == ["para one", "para two"]
    ensures EmbedAll(embed, Chunks(contents)) == [embed("para one"), embed("para two")]
  {
    assert "notes.txt"[5..] == ".txt";
    SplitExample();
    ChunksExample();
  }

  /**
   * The upload example end to end on a fresh store: three raw segments are
   * reported, the two non-blank ones are stored with their embeddings, and
   * the store stays aligned.
   */
  method UploadScenario(embed: string -> Vector) returns (reply: UploadReply, stored: seq<string>, vectors: seq<Vector>)
    ensures reply == Uploaded(3)
    ensures stored == ["para one", "para two"]
    ensures vectors == [embed("para one"), embed("para two")]
  {
    var store := new Store.Startup(embed, None);
    var contents := "para one\n\npara two\n\n\n";
    UploadExampleFacts(embed, contents);
    reply := store.Upload("notes.txt", contents);
    stored := store.textChunks;
    vectors := store.index.data;
  }

  /**
   * The chat route's query on a store holding one chunk: faiss pads the two
   * missing slots with -1, and the comprehension reads the last chunk for
   * each, so the same chunk comes back three times.
   */
  method OneChunkChatContext(embed: string -> Vector, text: string, query: string) returns (r: Option<seq<string>>)
    ensures r == Some([text, text, text])
  {
    var store := new Store.Startup(embed, None);
    store.AddToStore(text);
    r := store.GetRelevantContext(query, ChatK);
    ghost var labels := Search(store.index.data, embed(query), ChatK);
    assert labels[0] == 0;
    assert r.value[0] == text;
    assert Repeat(text, 2) == [text, text];
    assert |Context(store.textChunks, labels)| == 1;
    assert Context(store.textChunks, labels) == [text];
    assert [text] + [text, text] == [text, text, text];
  }

  /** Resetting twice leaves the same state as resetting once. */
  method ResetIsIdempotent(store: Store) returns (once: Snapshot, twice: Snapshot)
    modifies store
    ensures once == twice == Snapshot([], [])
    ensures store.persisted == old(store.persisted)
  {
    store.ResetSystem();
    once := Snapshot(store.index.data, store.textChunks);
    store.ResetSystem();
    twice := Snapshot(store.index.data, store.textChunks);
  }
}
