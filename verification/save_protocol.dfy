/** The file-system states that SaveFile(string, bool) passes through once the
    bytes to save are known: remove a stale temporary file, create the temporary
    file, append it chunk by chunk, delete the destination, move the temporary
    file onto the destination. */
module SaveProtocol {
  import opened Platform
  import opened Framing

  /** The temporary file SaveFile writes beside the destination. */
  function TempName(fileName: string): (tmp: string)
    ensures tmp != fileName
  {
    assert |fileName + ".tmp"| == |fileName| + 4;
    fileName + ".tmp"
  }

  /** How many bytes of the payload the temporary file holds after the i-th chunk. */
  function ChunkEnd(i: nat, n: nat): (end: nat) {
    Min((i + 1) * BUFFER_SIZE, n)
  }

  /** The states after each of the first `k` chunk writes into `tmp`, starting from `base`. */
  function ChunkStates(base: FileMap, tmp: string, out: seq<byte>, k: nat): (states: seq<FileMap>)
    ensures |states| == k
  {
    seq(k, i requires 0 <= i < k => base[tmp := out[..ChunkEnd(i, |out|)]])
  }

  /** One more chunk write adds one state at the end. */
  lemma ChunkStatesStep(base: FileMap, tmp: string, out: seq<byte>, k: nat)
    ensures ChunkStates(base, tmp, out, k + 1) == ChunkStates(base, tmp, out, k) + [base[tmp := out[..ChunkEnd(k, |out|)]]]
  {
  }

  /** A read of BUFFER_SIZE bytes after `k` full chunks ends where chunk `k` ends,
      and there was a chunk left to read. */
  lemma ChunkReadStep(k: nat, n: nat)
    requires Min(k * BUFFER_SIZE, n) < n
    ensures Min(k * BUFFER_SIZE, n) + Min(BUFFER_SIZE, n - Min(k * BUFFER_SIZE, n)) == ChunkEnd(k, n)
    ensures ChunkEnd(k, n) == Min((k + 1) * BUFFER_SIZE, n)
    ensures k < ChunkCount(n)
  {
  }

  /** Appending the next slice of `out` to a temporary file holding a prefix of
      it gives the longer prefix. */
  lemma AppendSlice(base: FileMap, tmp: string, out: seq<byte>, p: nat, q: nat)
    requires p <= q <= |out|
    ensures base[tmp := out[..p]][tmp := out[..p] + out[p..q]] == base[tmp := out[..q]]
  {
    assert out[..p] + out[p..q] == out[..q];
  }

  /** Moving the temporary file onto the destination of a state without a stale
      temporary file leaves the destination holding the temporary file's bytes. */
  lemma MoveResult(cleared: FileMap, tmp: string, fileName: string, out: seq<byte>)
    requires tmp !in cleared && tmp != fileName
    ensures ((cleared[tmp := out] - {fileName}) - {tmp})[fileName := out] == cleared[fileName := out]
  {
  }

  /** Once the reads reach the end, exactly ChunkCount chunks were written. */
  lemma ChunkReadDone(k: nat, n: nat)
    requires k <= ChunkCount(n) && Min(k * BUFFER_SIZE, n) == n
    ensures k == ChunkCount(n)
  {
  }

  /** Where the chunks of an `n`-byte payload end: each ends inside the payload,
      a later chunk ends past an earlier one by at most BUFFER_SIZE per chunk,
      and the last ends at `n`. */
  lemma ChunkEndBounds(i: nat, n: nat)
    requires i < ChunkCount(n)
    ensures 0 < ChunkEnd(i, n) <= n && ChunkEnd(i, n) <= (i + 1) * BUFFER_SIZE
    ensures i == ChunkCount(n) - 1 ==> ChunkEnd(i, n) == n
  {
    assert i * BUFFER_SIZE < n;
  }

  /** A later chunk of the same payload ends further on, by at most BUFFER_SIZE
      bytes per chunk in between. */
  lemma ChunkEndsIncrease(i: nat, j: nat, n: nat)
    requires i < j < ChunkCount(n)
    ensures ChunkEnd(i, n) < ChunkEnd(j, n) <= ChunkEnd(i, n) + (j - i) * BUFFER_SIZE
  {
    assert j * BUFFER_SIZE < n;
    assert ChunkEnd(i, n) == (i + 1) * BUFFER_SIZE;
  }

  /** The state after chunk `i` of `out`: the temporary file holds a non-empty
      prefix of `out` ending at ChunkEnd, and nothing else differs from `base`. */
  lemma ChunkState(base: FileMap, tmp: string, out: seq<byte>, i: nat)
    requires i < ChunkCount(|out|)
    ensures var state := ChunkStates(base, tmp, out, ChunkCount(|out|))[i];
            tmp in state && state[tmp] == out[..ChunkEnd(i, |out|)] &&
            0 < |state[tmp]| == ChunkEnd(i, |out|) <= |out| &&
            state - {tmp} == base - {tmp}
  {
    ChunkEndBounds(i, |out|);
  }

  /** Every chunk state holds a non-empty prefix of `out` in `tmp` and agrees
      with `base` elsewhere. */
  lemma ChunkStatesArePrefixes(base: FileMap, tmp: string, out: seq<byte>)
    ensures var states := ChunkStates(base, tmp, out, ChunkCount(|out|));
            forall i :: 0 <= i < |states| ==>
              tmp in states[i] && 0 < |states[i][tmp]| <= |out| &&
              states[i][tmp] == out[..|states[i][tmp]|] &&
              states[i] - {tmp} == base - {tmp}
  {
    var states := ChunkStates(base, tmp, out, ChunkCount(|out|));
    forall i | 0 <= i < |states|
      ensures tmp in states[i] && 0 < |states[i][tmp]| <= |out|
      ensures states[i][tmp] == out[..|states[i][tmp]|]
      ensures states[i] - {tmp} == base - {tmp}
    {
      ChunkState(base, tmp, out, i);
    }
  }

  /** Each chunk write extends the temporary file: a later state holds a longer
      prefix, by at most BUFFER_SIZE bytes per write in between. */
  lemma ChunkStatesGrow(base: FileMap, tmp: string, out: seq<byte>)
    ensures var states := ChunkStates(base, tmp, out, ChunkCount(|out|));
            forall i, j :: 0 <= i < j < |states| ==>
              tmp in states[i] && tmp in states[j] &&
              states[i][tmp] == states[j][tmp][..|states[i][tmp]|] &&
              |states[i][tmp]| < |states[j][tmp]| <= |states[i][tmp]| + (j - i) * BUFFER_SIZE
  {
    var states := ChunkStates(base, tmp, out, ChunkCount(|out|));
    forall i, j | 0 <= i < j < |states|
      ensures tmp in states[i] && tmp in states[j]
      ensures states[i][tmp] == states[j][tmp][..|states[i][tmp]|]
      ensures |states[i][tmp]| < |states[j][tmp]| <= |states[i][tmp]| + (j - i) * BUFFER_SIZE
    {
      ChunkEndsIncrease(i, j, |out|);
      ChunkState(base, tmp, out, i);
      ChunkState(base, tmp, out, j);
    }
  }

  /** There is a chunk state exactly when `out` is non-empty; the first holds at
      most BUFFER_SIZE bytes and the last holds all of `out`. */
  lemma ChunkStatesEnds(base: FileMap, tmp: string, out: seq<byte>)
    ensures var states := ChunkStates(base, tmp, out, ChunkCount(|out|));
            (|out| == 0 <==> |states| == 0) &&
            (|out| > 0 ==> states[|states| - 1] == base[tmp := out] &&
                           tmp in states[0] && |states[0][tmp]| <= BUFFER_SIZE)
  {
    var n := |out|;
    if n > 0 {
      ChunkEndBounds(ChunkCount(n) - 1, n);
      assert out[..n] == out;
      ChunkState(base, tmp, out, 0);
      ChunkEndBounds(0, n);
    }
  }

  /** NbtFile.cs:105: the states left by removing a stale temporary file, if there is one. */
  function StaleRemoval(before: FileMap, tmp: string): (states: seq<FileMap>) {
    if tmp in before then [before - {tmp}] else []
  }

  /** NbtFile.cs:106-114: the states left by creating the temporary file and appending
      `out` to it chunk by chunk. */
  function TempWrite(cleared: FileMap, tmp: string, out: seq<byte>): (states: seq<FileMap>) {
    [cleared[tmp := []]] + ChunkStates(cleared, tmp, out, ChunkCount(|out|))
  }

  /** NbtFile.cs:115-116: the states left by deleting the destination, if it exists,
      and moving the temporary file onto it. */
  function Replacement(written: FileMap, tmp: string, fileName: string): (states: seq<FileMap>)
    requires tmp in written
  {
    var removed := written - {fileName};
    (if fileName in written then [removed] else []) + [(removed - {tmp})[fileName := written[tmp]]]
  }

  /** Every state SaveFile(fileName) leaves behind, in order, when the stream
      save produced `out` and the file system held `before`. */
  function SaveTrace(before: FileMap, fileName: string, out: seq<byte>): (trace: seq<FileMap>)
  {
    var tmp := TempName(fileName);
    var cleared := before - {tmp};
    StaleRemoval(before, tmp) + TempWrite(cleared, tmp, out) + Replacement(cleared[tmp := out], tmp, fileName)
  }

  /** The three phases of the save, run one after another from `before`, leave
      exactly the states of SaveTrace. */
  lemma SaveTraceComposes(before: FileMap, fileName: string, out: seq<byte>,
                          h0: seq<FileMap>, h1: seq<FileMap>, h2: seq<FileMap>, h3: seq<FileMap>)
    requires h1 == h0 + StaleRemoval(before, TempName(fileName))
    requires h2 == h1 + TempWrite(before - {TempName(fileName)}, TempName(fileName), out)
    requires h3 == h2 + Replacement((before - {TempName(fileName)})[TempName(fileName) := out], TempName(fileName), fileName)
    ensures h3 == h0 + SaveTrace(before, fileName, out)
  {
  }

  /** Two file-system states agree on every path other than the destination and its temporary file. */
  ghost predicate SameElsewhere(s: FileMap, t: FileMap, fileName: string)
  {
    forall p :: p != fileName && p != TempName(fileName) ==>
      (p in s <==> p in t) && (p in s ==> s[p] == t[p])
  }

  /** The last state: the destination holds `out`, no temporary file is left and
      every other path is as it was. */
  lemma SaveTraceEnds(before: FileMap, fileName: string, out: seq<byte>)
    ensures var trace := SaveTrace(before, fileName, out);
            |trace| >= 2 &&
            var last := trace[|trace| - 1];
            fileName in last && last[fileName] == out &&
            TempName(fileName) !in last &&
            SameElsewhere(last, before, fileName)
  {
  }

  /** No state of the save touches a path other than the destination and its temporary file. */
  lemma {:induction false} SaveTraceFrame(before: FileMap, fileName: string, out: seq<byte>)
    ensures forall i :: 0 <= i < |SaveTrace(before, fileName, out)| ==>
              SameElsewhere(SaveTrace(before, fileName, out)[i], before, fileName)
  {
    var trace := SaveTrace(before, fileName, out);
    forall i | 0 <= i < |trace|
      ensures SameElsewhere(trace[i], before, fileName)
    {
    }
  }

  /** A stale temporary file is removed first, and the temporary file is then
      created empty before any byte is written to it. */
  lemma SaveTraceStartsClean(before: FileMap, fileName: string, out: seq<byte>)
    ensures var tmp := TempName(fileName);
            var trace := SaveTrace(before, fileName, out);
            var created := if tmp in before then 1 else 0;
            |trace| > created &&
            (tmp in before ==> trace[0] == before - {tmp}) &&
            trace[created] == (before - {tmp})[tmp := []]
  {
  }

  /** Up to (not including) the deletion of the destination, every state holds
      the destination exactly as it was: a save interrupted before that point
      leaves the old file in place. */
  lemma SaveTraceKeepsDestinationUntilDelete(before: FileMap, fileName: string, out: seq<byte>)
    ensures var trace := SaveTrace(before, fileName, out);
            var deleted := |trace| - (if fileName in before then 2 else 1);
            forall i :: 0 <= i < deleted ==>
              (fileName in trace[i] <==> fileName in before) &&
              (fileName in before ==> trace[i][fileName] == before[fileName])
  {
  }

  /** Replacing an existing destination is not atomic: the state after the
      deletion and before the move holds no destination file at all. */
  lemma SaveTraceExposesMissingDestination(before: FileMap, fileName: string, out: seq<byte>)
    requires fileName in before
    ensures var trace := SaveTrace(before, fileName, out);
            |trace| >= 2 && fileName !in trace[|trace| - 2] && TempName(fileName) in trace[|trace| - 2]
  {
  }
}
