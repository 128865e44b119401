/** The graph file (save_graph and load_impl, src/in_mem_graph_store.cpp:134-229) as a sequence of 32-bit words, a
    64-bit field being two of them, low word first. */
module GraphFile {
  import opened Stores

  const WORD: nat := 0x1_0000_0000
  const HEADER_WORDS: nat := 6

  function FromU64(v: nat): (r: seq<nat>)
    ensures |r| == 2
  {
    [v % WORD, v / WORD]
  }

  function ToU64(lo: nat, hi: nat): nat {
    lo + hi * WORD
  }

  lemma U64RoundTrip(v: nat)
    ensures ToU64(FromU64(v)[0], FromU64(v)[1]) == v
  {
  }

  // Sequential files: writing at the position overwrites and then extends; a short read is an error.
  class WordWriter {
    var file: seq<nat>
    var pos: nat

    constructor ()
      ensures file == [] && pos == 0
    {
      file, pos := [], 0;
    }

    method Write(words: seq<nat>)
      requires pos <= |file|
      modifies this
      ensures file == Overwritten(old(file), old(pos), words) && pos == old(pos) + |words|
    {
      file := Overwritten(file, pos, words);
      pos := pos + |words|;
    }

    method SeekToStart()
      modifies this`pos
      ensures pos == 0
    {
      pos := 0;
    }
  }

  function Overwritten(file: seq<nat>, pos: nat, words: seq<nat>): (r: seq<nat>)
    requires pos <= |file|
    ensures |r| == if pos + |words| <= |file| then |file| else pos + |words|
    ensures pos == |file| ==> r == file + words
  {
    file[..pos] + words + if pos + |words| <= |file| then file[pos + |words|..] else []
  }

  class WordReader {
    const file: seq<nat>
    var pos: nat

    constructor (file: seq<nat>)
      ensures this.file == file && pos == 0
    {
      this.file, pos := file, 0;
    }

    method Read(n: nat) returns (ok: bool, words: seq<nat>)
      requires pos <= |file|
      modifies this`pos
      ensures ok <==> old(pos) + n <= |file|
      ensures ok ==> words == file[old(pos)..old(pos) + n] && pos == old(pos) + n
      ensures !ok ==> pos == old(pos) && words == []
    {
      ok := pos + n <= |file|;
      words := if ok then file[pos..pos + n] else [];
      if ok {
        pos := pos + n;
      }
    }
  }

  // One record: a degree and that many ids.
  function Record(list: seq<nat>): (r: seq<nat>)
    ensures |r| == |list| + 1
  {
    [|list|] + list
  }

  function Body(lists: seq<seq<nat>>): seq<nat> {
    if lists == [] then [] else Record(lists[0]) + Body(lists[1..])
  }

  lemma Associate(a: seq<nat>, b: seq<nat>, c: seq<nat>)
    ensures a + (b + c) == (a + b) + c
  {
  }

  lemma {:induction false} BodyAppend(lists: seq<seq<nat>>, more: seq<seq<nat>>)
    ensures Body(lists + more) == Body(lists) + Body(more)
  {
    if lists == [] {
      assert lists + more == more;
    } else {
      BodyAppend(lists[1..], more);
      assert (lists + more)[1..] == lists[1..] + more && (lists + more)[0] == lists[0];
      Associate(Record(lists[0]), Body(lists[1..]), Body(more));
    }
  }

  lemma BodySnoc(lists: seq<seq<nat>>, list: seq<nat>)
    ensures Body(lists + [list]) == Body(lists) + Record(list)
  {
    BodyAppend(lists, [list]);
    assert Body([list]) == Record(list) + Body([]);
  }

  lemma BodyNext(lists: seq<seq<nat>>, i: nat)
    requires i < |lists|
    ensures Body(lists[..i + 1]) == Body(lists[..i]) + Record(lists[i])
    ensures MaxDegree(lists[..i + 1]) ==
              if |lists[i]| > MaxDegree(lists[..i]) then |lists[i]| else MaxDegree(lists[..i])
  {
    assert lists[..i + 1] == lists[..i] + [lists[i]] && lists[..i + 1][..i] == lists[..i];
    BodySnoc(lists[..i], lists[i]);
  }

  // The file of these lists: total size in bytes, degree field, entry point, number of frozen points, records.
  function Encoded(lists: seq<seq<nat>>, width: nat, start: nat, frozen: nat): seq<nat> {
    Draft(4 * (HEADER_WORDS + |Body(lists)|), width, start, frozen, Body(lists))
  }

  function MaxDegree(lists: seq<seq<nat>>): (m: nat)
    ensures forall i :: 0 <= i < |lists| ==> |lists[i]| <= m
    ensures m == 0 || exists i :: 0 <= i < |lists| && |lists[i]| == m
  {
    if lists == [] then 0
    else
      var n := |lists| - 1;
      var m := MaxDegree(lists[..n]);
      assert forall i :: 0 <= i < n ==> lists[..n][i] == lists[i];
      if |lists[n]| > m then |lists[n]| else m
  }

  lemma Reassociate(a: seq<nat>, b: seq<nat>, c: seq<nat>)
    ensures a + b + c == a + (b + c)
  {
  }

  // The record loop, appending at the end of the file.
  method WriteRecords(out: WordWriter, lists: seq<seq<nat>>) returns (bytes: nat, maxDegree: nat)
    requires out.pos == |out.file|
    modifies out
    ensures out.file == old(out.file) + Body(lists) && out.pos == |out.file|
    ensures bytes == 4 * |Body(lists)| && maxDegree == MaxDegree(lists)
  {
    bytes, maxDegree := 0, 0;
    ghost var f := out.file;
    for i := 0 to |lists|
      invariant out.file == f + Body(lists[..i]) && out.pos == |out.file|
      invariant bytes == 4 * |Body(lists[..i])| && maxDegree == MaxDegree(lists[..i])
    {
      var list := lists[i];
      BodyNext(lists, i);
      Reassociate(f, Body(lists[..i]), Record(list));
      WriteRecord(out, list);
      maxDegree := if |list| > maxDegree then |list| else maxDegree;
      bytes := bytes + 4 * (|list| + 1);
    }
    assert lists[..|lists|] == lists;
  }

  method WriteRecord(out: WordWriter, list: seq<nat>)
    requires out.pos == |out.file|
    modifies out
    ensures out.file == old(out.file) + Record(list) && out.pos == |out.file|
  {
    out.Write([|list|]);
    out.Write(list);
  }

  // A file whose size and degree fields are still placeholders.
  function Draft(size: nat, degree: nat, start: nat, frozen: nat, body: seq<nat>): (r: seq<nat>)
    ensures |r| == HEADER_WORDS + |body|
  {
    FromU64(size) + [degree, start] + FromU64(frozen) + body
  }

  lemma PatchDraft(size: nat, degree: nat, start: nat, frozen: nat, body: seq<nat>, size': nat, degree': nat)
    ensures Overwritten(Overwritten(Draft(size, degree, start, frozen, body), 0, FromU64(size')), 2, [degree'])
         == Draft(size', degree', start, frozen, body)
    ensures Overwritten(Draft(size, degree, start, frozen, body), 0, FromU64(size'))
         == Draft(size', degree, start, frozen, body)
  {
    var rest := [start] + FromU64(frozen) + body;
    assert Draft(size, degree, start, frozen, body) == FromU64(size) + [degree] + rest;
    assert Draft(size', degree, start, frozen, body) == FromU64(size') + [degree] + rest;
    assert Draft(size', degree', start, frozen, body) == FromU64(size') + [degree'] + rest;
  }

  // The header with a size that is not final yet.
  method WriteHeader(degree: nat, start: nat, frozen: nat) returns (out: WordWriter)
    ensures fresh(out) && out.file == Draft(4 * HEADER_WORDS, degree, start, frozen, []) && out.pos == |out.file|
  {
    out := new WordWriter();
    out.Write(FromU64(4 * HEADER_WORDS));
    out.Write([degree]);
    out.Write([start]);
    out.Write(FromU64(frozen));
  }

  lemma DraftGrows(degree: nat, start: nat, frozen: nat, body: seq<nat>)
    ensures Draft(4 * HEADER_WORDS, degree, start, frozen, []) + body ==
            Draft(4 * HEADER_WORDS, degree, start, frozen, body)
  {
  }

  /** save_graph: the header is written with placeholders first and patched once sizes are known. */
  method SaveGraph(g: GraphStore, numPoints: nat, numFrozen: nat, start: nat) returns (file: seq<nat>, indexSize: nat)
    requires g.Valid() && numPoints <= |g.graph|
    ensures file == Encoded(g.graph[..numPoints], MaxDegree(g.graph[..numPoints]), start, numFrozen)
    ensures indexSize == 4 * |file|
  {
    var lists := g.graph[..numPoints];
    var out := WriteHeader(g.maxObservedDegree, start, numFrozen);
    var bytes, maxDegree := WriteRecords(out, lists);
    DraftGrows(g.maxObservedDegree, start, numFrozen, Body(lists));
    indexSize := 4 * HEADER_WORDS + bytes;
    PatchDraft(4 * HEADER_WORDS, g.maxObservedDegree, start, numFrozen, Body(lists), indexSize, maxDegree);
    out.SeekToStart();
    out.Write(FromU64(indexSize));
    out.Write([maxDegree]);
    file := out.file;
  }

  // Rewinding and writing the final size over the first field.
  method PatchSize(out: WordWriter, degree: nat, start: nat, frozen: nat, bytes: nat, ghost lists: seq<seq<nat>>)
    requires out.file == Draft(4 * HEADER_WORDS, degree, start, frozen, []) + Body(lists) && bytes == 4 * |Body(lists)|
    modifies out
    ensures out.file == Encoded(lists, degree, start, frozen)
  {
    DraftGrows(degree, start, frozen, Body(lists));
    PatchDraft(4 * HEADER_WORDS, degree, start, frozen, Body(lists), 4 * HEADER_WORDS + bytes, degree);
    out.SeekToStart();
    out.Write(FromU64(4 * HEADER_WORDS + bytes));
  }

  datatype Loaded = Loaded(nodesRead: nat, start: nat, frozen: nat) | ShortRead | BadIndex

  // Where the loop is in a well-formed file.
  ghost predicate Aligned(file: seq<nat>, pos: nat, lists: seq<seq<nat>>, n: nat) {
    n <= |lists| && pos <= |file| && file[pos..] == Body(lists[n..])
  }

  lemma NextRecord(file: seq<nat>, pos: nat, lists: seq<seq<nat>>, n: nat)
    requires Aligned(file, pos, lists, n)
    ensures n == |lists| <==> pos == |file|
    ensures n < |lists| ==>
              && pos + 1 + |lists[n]| <= |file| && file[pos] == |lists[n]|
              && file[pos + 1..pos + 1 + |lists[n]|] == lists[n]
              && Aligned(file, pos + 1 + |lists[n]|, lists, n + 1)
  {
    if n < |lists| {
      var rest, r := file[pos..], Record(lists[n]);
      assert lists[n..][1..] == lists[n + 1..];
      assert rest == r + Body(lists[n + 1..]);
      assert file[pos] == rest[0];
      assert rest[..|r|] == r;
      assert file[pos + 1..pos + 1 + |lists[n]|] == rest[1..|r|] == r[1..];
      assert file[pos + |r|..] == rest[|r|..];
    }
  }

  // What the loop has achieved on the file of `lists`.
  ghost predicate Reading(file: seq<nat>, lists: seq<seq<nat>>, pos: nat, bytesRead: nat, expectedSize: nat,
                          nodesRead: nat, G: seq<seq<nat>>, H: seq<seq<nat>>)
  {
    && expectedSize == 4 * |file| && bytesRead == 4 * pos
    && Aligned(file, pos, lists, nodesRead)
    && |lists| <= |G| == |H|
    && forall i :: 0 <= i < |G| ==> H[i] == if i < nodesRead then lists[i] else G[i]
  }

  // One record into the store.
  method ReadRecord(g: GraphStore, reader: WordReader, nodesRead: nat) returns (r: ReadStatus, k: nat)
    requires reader.pos <= |reader.file|
    modifies g, reader`pos
    ensures reader.pos <= |reader.file| && g.maxObservedDegree == old(g.maxObservedDegree)
    ensures var p, f := old(reader.pos), reader.file;
            if p < |f| && p + 1 + f[p] <= |f| then
              if nodesRead < |old(g.graph)| then
                && r == Good && k == f[p] && reader.pos == p + 1 + k
                && g.graph == old(g.graph)[nodesRead := f[p + 1..p + 1 + k]]
              else r == Bad && g.graph == old(g.graph)
            else r == Short && g.graph == old(g.graph)
  {
    k := 0;
    var ok, head := reader.Read(1);
    if !ok {
      return Short, 0;
    }
    k := head[0];
    var tmp;
    ok, tmp := reader.Read(k);
    if !ok {
      return Short, k;
    }
    if nodesRead >= |g.graph| {
      return Bad, k;
    }
    g.graph := g.graph[nodesRead := tmp];
    r := Good;
  }

  datatype ReadStatus = Good | Short | Bad

  // The loop `while (bytes_read != expected_file_size)`.
  method ReadRecords(g: GraphStore, reader: WordReader, expectedSize: nat, ghost lists: seq<seq<nat>>)
    returns (status: ReadStatus, nodesRead: nat)
    requires reader.pos == HEADER_WORDS <= |reader.file|
    modifies g, reader`pos
    ensures |g.graph| == |old(g.graph)| && g.maxObservedDegree == old(g.maxObservedDegree)
    ensures Reading(reader.file, lists, HEADER_WORDS, 4 * HEADER_WORDS, expectedSize, 0, old(g.graph), old(g.graph)) ==>
              status == Good && nodesRead == |lists| && reader.pos == |reader.file| &&
              forall i :: 0 <= i < |g.graph| ==> g.graph[i] == if i < |lists| then lists[i] else old(g.graph)[i]
  {
    ghost var G := g.graph;
    ghost var good := Reading(reader.file, lists, HEADER_WORDS, 4 * HEADER_WORDS, expectedSize, 0, G, G);
    var bytesRead: nat := 4 * HEADER_WORDS;
    nodesRead := 0;
    while bytesRead != expectedSize
      invariant reader.pos <= |reader.file| && |g.graph| == |G| && g.maxObservedDegree == old(g.maxObservedDegree)
      invariant good ==> Reading(reader.file, lists, reader.pos, bytesRead, expectedSize, nodesRead, G, g.graph)
      decreases |reader.file| - reader.pos
    {
      if good {
        NextRecord(reader.file, reader.pos, lists, nodesRead);
      }
      var k;
      status, k := ReadRecord(g, reader, nodesRead);
      if status != Good {
        return;
      }
      nodesRead := nodesRead + 1;
      bytesRead := bytesRead + 4 * (k + 1);
    }
    if good {
      NextRecord(reader.file, reader.pos, lists, nodesRead);
    }
    status := Good;
  }

  /** load_impl. BadIndex stands for a record past the end of the store, where the code is undefined. */
  method LoadGraph(g: GraphStore, file: seq<nat>, expectedPoints: nat, ghost lists: seq<seq<nat>>)
    returns (r: Loaded)
    modifies g
    ensures |g.graph| == if |old(g.graph)| < expectedPoints then expectedPoints else |old(g.graph)|
    ensures forall width, start, frozen ::
              file == Encoded(lists, width, start, frozen) && |lists| <= |g.graph| ==>
                && r == Loaded(|lists|, start, frozen)
                && Restored(old(g.graph), g.graph, lists)
                && g.maxObservedDegree == width
                && (g.Valid() <==> DegreesWithin(lists, width) && DegreesWithin(g.graph[|lists|..], width))
  {
    if |g.graph| < expectedPoints {
      g.graph := g.graph + seq(expectedPoints - |g.graph|, _ => []);
    }
    if |file| < HEADER_WORDS {
      return ShortRead;
    }
    ghost var G := g.graph;
    var reader := new WordReader(file);
    var expectedSize := ToU64(file[0], file[1]);
    g.maxObservedDegree := file[2];
    reader.pos := HEADER_WORDS;
    var status, nodesRead := ReadRecords(g, reader, expectedSize, lists);
    r := match status
      case Good => Loaded(nodesRead, file[3], ToU64(file[4], file[5]))
      case Short => ShortRead
      case Bad => BadIndex;
    forall width, start, frozen | file == Encoded(lists, width, start, frozen) && |lists| <= |G|
      ensures r == Loaded(|lists|, start, frozen) && file[2] == width
      ensures Reading(file, lists, HEADER_WORDS, 4 * HEADER_WORDS, expectedSize, 0, G, G)
    {
      HeaderFields(lists, width, start, frozen);
    }
    if |lists| <= |g.graph| && g.graph[..|lists|] == lists {
      LoadedDegrees(g.graph, lists, file[2]);
    }
  }

  ghost predicate DegreesWithin(lists: seq<seq<nat>>, width: nat) {
    forall i :: 0 <= i < |lists| ==> |lists[i]| <= width
  }

  // A loaded store's degree field bounds its lists if it bounds the loaded ones and those left beyond them.
  lemma LoadedDegrees(H: seq<seq<nat>>, lists: seq<seq<nat>>, width: nat)
    requires |lists| <= |H| && H[..|lists|] == lists
    ensures DegreesWithin(H, width) <==> DegreesWithin(lists, width) && DegreesWithin(H[|lists|..], width)
  {
    var rest := H[|lists|..];
    assert H == lists + rest;
    if DegreesWithin(H, width) {
      assert forall i :: 0 <= i < |lists| ==> lists[i] == H[i];
      assert forall i :: 0 <= i < |rest| ==> rest[i] == H[|lists| + i];
    }
  }

  /** An input whose recorded degree is too small: one list of one entry under degree 0. */
  method LoadNarrow() returns (g: GraphStore)
    ensures |g.graph| == 1 && g.graph[0] == [0] && g.maxObservedDegree == 0 && !g.Valid()
  {
    var lists := [[0]];
    g := new GraphStore(1);
    var _ := LoadGraph(g, Encoded(lists, 0, 0, 0), 1, lists);
    assert g.graph[..1][0] == g.graph[0] && |lists[0]| == 1;
  }

  // The lists are back, and what lies beyond them is as before.
  ghost predicate Restored(G: seq<seq<nat>>, H: seq<seq<nat>>, lists: seq<seq<nat>>) {
    && |lists| <= |H|
    && H[..|lists|] == lists
    && forall i :: |lists| <= i < |H| ==> H[i] == if i < |G| then G[i] else []
  }

  lemma HeaderFields(lists: seq<seq<nat>>, width: nat, start: nat, frozen: nat)
    ensures var file := Encoded(lists, width, start, frozen);
            && ToU64(file[0], file[1]) == 4 * |file|
            && file[2] == width && file[3] == start && ToU64(file[4], file[5]) == frozen
            && Aligned(file, HEADER_WORDS, lists, 0)
  {
    var file := Encoded(lists, width, start, frozen);
    U64RoundTrip(4 * |file|);
    U64RoundTrip(frozen);
    assert file[HEADER_WORDS..] == Body(lists);
    assert lists[0..] == lists;
  }

  /** Saving and loading into an empty store restores the lists, the entry point and the number of frozen points, and
      the recorded degree bounds every list. */
  method SaveThenLoad(g: GraphStore, numPoints: nat, numFrozen: nat, start: nat) returns (h: GraphStore, r: Loaded)
    requires g.Valid() && numPoints <= |g.graph|
    ensures h.Valid() && h.graph == g.graph[..numPoints] && r == Loaded(numPoints, start, numFrozen)
  {
    var file, size := SaveGraph(g, numPoints, numFrozen, start);
    h := new GraphStore(numPoints);
    r := LoadGraph(h, file, numPoints, g.graph[..numPoints]);
  }
}
