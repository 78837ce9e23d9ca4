// The stdout reader of restic_engine.py: bounded line splitting over chunks of
// any size, dropping each line that is longer than the limit.
module LineDrain {
  import opened Framing

  const NEWLINE: byte := 10
  const MAX_RESTIC_STREAM_LINE_BYTES := 1024 * 1024

  // ---------- lines of a whole stream ----------

  function Rest(stream: Bytes): (rest: Bytes)
    ensures NEWLINE !in rest
  {
    if stream == [] || stream[|stream| - 1] == NEWLINE then []
    else Rest(stream[..|stream| - 1]) + [stream[|stream| - 1]]
  }

  // The terminated lines, each with its newline.
  function Terminated(stream: Bytes): seq<Bytes>
  {
    if stream == [] then []
    else
      var init := stream[..|stream| - 1];
      if stream[|stream| - 1] == NEWLINE then Terminated(init) + [Rest(init) + [NEWLINE]]
      else Terminated(init)
  }

  function Lines(stream: Bytes): seq<Bytes>
  {
    Terminated(stream) + (if Rest(stream) == [] then [] else [Rest(stream)])
  }

  lemma StreamStep(init: Bytes, last: byte)
    ensures Rest(init + [last]) == if last == NEWLINE then [] else Rest(init) + [last]
    ensures Terminated(init + [last]) ==
            if last == NEWLINE then Terminated(init) + [Rest(init) + [NEWLINE]] else Terminated(init)
  {
    assert (init + [last])[..|init|] == init;
  }

  ghost predicate IsTerminatedLine(line: Bytes)
  {
    line != [] && line[|line| - 1] == 10 && 10 !in line[..|line| - 1]
  }

  lemma EmptyStream()
    ensures Terminated([]) == [] && Rest([]) == []
  {
  }

  lemma {:induction false} TerminatedRebuilds(stream: Bytes)
    ensures Joined(Terminated(stream)) + Rest(stream) == stream
    ensures forall line :: line in Terminated(stream) ==> IsTerminatedLine(line)
    decreases |stream|
  {
    hide Terminated, Rest, Joined;
    EmptyStream();
    JoinedStep([], []);
    if stream != [] {
      var init, last := stream[..|stream| - 1], stream[|stream| - 1];
      TerminatedRebuilds(init);
      RebuildStep(init, last);
      assert stream == init + [last];
    }
  }

  lemma RebuildStep(init: Bytes, last: byte)
    requires Joined(Terminated(init)) + Rest(init) == init
    requires forall line :: line in Terminated(init) ==> IsTerminatedLine(line)
    ensures Joined(Terminated(init + [last])) + Rest(init + [last]) == init + [last]
    ensures forall line :: line in Terminated(init + [last]) ==> IsTerminatedLine(line)
  {
    hide Terminated;
    hide Rest;
    hide Joined;
    StreamStep(init, last);
    var before, rest := Joined(Terminated(init)), Rest(init);
    if last == NEWLINE {
      var line := rest + [NEWLINE];
      JoinedStep(Terminated(init), line);
      assert line[..|line| - 1] == rest;
      assert before + line + [] == before + rest + [last];
    } else {
      assert before + (rest + [last]) == before + rest + [last];
    }
  }

  // The lines of a stream concatenate to it; each ends at its first newline, and only
  // the last one may lack it.
  lemma LinesPartition(stream: Bytes)
    ensures Joined(Lines(stream)) == stream
    ensures forall line :: line in Lines(stream) ==> line != [] && 10 !in line[..|line| - 1]
    ensures forall i :: 0 <= i < |Lines(stream)| - 1 ==> IsTerminatedLine(Lines(stream)[i])
  {
    hide Terminated;
    hide Rest;
    hide Joined;
    TerminatedRebuilds(stream);
    if Rest(stream) == [] {
      assert Lines(stream) == Terminated(stream);
      assert Joined(Terminated(stream)) + [] == Joined(Terminated(stream));
    } else {
      JoinedStep(Terminated(stream), Rest(stream));
      assert NEWLINE !in Rest(stream)[..|Rest(stream)| - 1];
    }
  }

  function Short(lines: seq<Bytes>): (kept: seq<Bytes>)
    ensures forall line :: line in kept ==> |line| <= MAX_RESTIC_STREAM_LINE_BYTES
  {
    if lines == [] then []
    else
      var last := lines[|lines| - 1];
      Short(lines[..|lines| - 1]) + (if |last| <= MAX_RESTIC_STREAM_LINE_BYTES then [last] else [])
  }

  function LongCount(lines: seq<Bytes>): (count: nat)
    ensures count + |Short(lines)| == |lines|
  {
    if lines == [] then 0
    else
      var last := lines[|lines| - 1];
      LongCount(lines[..|lines| - 1]) + (if |last| <= MAX_RESTIC_STREAM_LINE_BYTES then 0 else 1)
  }

  // Exactly the lines of at most a mebibyte are kept.
  lemma {:induction false} ShortExactly(lines: seq<Bytes>, line: Bytes)
    ensures multiset(Short(lines))[line] == if |line| <= 1048576 then multiset(lines)[line] else 0
  {
    if lines != [] {
      ShortExactly(lines[..|lines| - 1], line);
      assert lines == lines[..|lines| - 1] + [lines[|lines| - 1]];
    }
  }

  lemma AppendLine(lines: seq<Bytes>, line: Bytes)
    ensures Short(lines + [line]) ==
            Short(lines) + (if |line| <= MAX_RESTIC_STREAM_LINE_BYTES then [line] else [])
    ensures LongCount(lines + [line]) ==
            LongCount(lines) + (if |line| <= MAX_RESTIC_STREAM_LINE_BYTES then 0 else 1)
  {
    assert (lines + [line])[..|lines|] == lines;
  }

  lemma {:induction false} AppendPlain(stream: Bytes, segment: Bytes)
    requires NEWLINE !in segment
    ensures Rest(stream + segment) == Rest(stream) + segment
    ensures Terminated(stream + segment) == Terminated(stream)
    decreases |segment|
  {
    hide Rest;
    hide Terminated;
    if segment == [] {
      assert stream + segment == stream;
    } else {
      var init, last := segment[..|segment| - 1], segment[|segment| - 1];
      assert stream + segment == stream + init + [last];
      assert last in segment;
      AppendPlain(stream, init);
      StreamStep(stream + init, last);
      assert Rest(stream) + init + [last] == Rest(stream) + segment;
    }
  }

  lemma AppendTerminated(stream: Bytes, segment: Bytes)
    requires IsTerminatedLine(segment)
    ensures Rest(stream + segment) == []
    ensures Terminated(stream + segment) == Terminated(stream) + [Rest(stream) + segment]
  {
    hide Rest;
    hide Terminated;
    var init := segment[..|segment| - 1];
    AppendPlain(stream, init);
    StreamStep(stream + init, NEWLINE);
    assert stream + segment == stream + init + [NEWLINE];
    assert Rest(stream) + init + [NEWLINE] == Rest(stream) + segment;
  }

  // ---------- the reader ----------

  // chunk.find(b"\n", from), with |chunk| for "not found".
  function FindNewline(chunk: Bytes, from: nat): (at: nat)
    requires from <= |chunk|
    ensures from <= at <= |chunk|
    ensures NEWLINE !in chunk[from..at]
    ensures at < |chunk| ==> chunk[at] == NEWLINE
    decreases |chunk| - from
  {
    if from == |chunk| || chunk[from] == NEWLINE then from
    else
      var at := FindNewline(chunk, from + 1);
      assert chunk[from..at] == [chunk[from]] + chunk[from + 1..at];
      at
  }

  class StdoutDrain {
    var pending: Bytes
    var dropping: bool
    var delivered: seq<Bytes>
    var errors: nat
    ghost var stream: Bytes

    // Everything but the stream itself is a function of the stream so far.
    ghost predicate Valid()
      reads this
    {
      var rest := Rest(stream);
      dropping == (|rest| > MAX_RESTIC_STREAM_LINE_BYTES) &&
      pending == (if dropping then [] else rest) &&
      delivered == Short(Terminated(stream)) &&
      errors == LongCount(Terminated(stream)) + (if dropping then 1 else 0)
    }

    constructor ()
      ensures Valid() && stream == []
    {
      pending, dropping, delivered, errors := [], false, [], 0;
      stream := [];
    }

    method Consume(segment: Bytes, terminated: bool)
      requires Valid() && segment != []
      requires terminated ==> IsTerminatedLine(segment)
      requires !terminated ==> NEWLINE !in segment
      modifies this
      ensures Valid() && stream == old(stream) + segment
      ensures |pending| <= MAX_RESTIC_STREAM_LINE_BYTES
    {
      hide Rest;
      hide Terminated;
      hide Short;
      hide LongCount;
      if terminated {
        AppendTerminated(stream, segment);
        AppendLine(Terminated(stream), Rest(stream) + segment);
      } else {
        AppendPlain(stream, segment);
      }
      stream := stream + segment;
      if dropping {
        if terminated {
          dropping := false;
        }
        return;
      }
      if |pending| + |segment| > MAX_RESTIC_STREAM_LINE_BYTES {
        pending := [];
        errors := errors + 1;
        if !terminated {
          dropping := true;
        }
        return;
      }
      pending := pending + segment;
      if terminated {
        delivered := delivered + [pending];
        pending := [];
      }
    }

    lemma PendingIsBounded()
      requires Valid()
      ensures |pending| <= MAX_RESTIC_STREAM_LINE_BYTES
    {
      hide Terminated, Rest, Short, LongCount;
    }

    method Chunk(chunk: Bytes)
      requires Valid()
      modifies this
      ensures Valid() && stream == old(stream) + chunk
      ensures |pending| <= MAX_RESTIC_STREAM_LINE_BYTES
    {
      hide Rest;
      hide Terminated;
      hide Short;
      hide LongCount;
      hide Valid;
      PendingIsBounded();
      assert chunk[..0] == [];
      var startIndex := 0;
      while startIndex < |chunk|
        invariant 0 <= startIndex <= |chunk|
        invariant Valid() && stream == old(stream) + chunk[..startIndex]
        invariant |pending| <= MAX_RESTIC_STREAM_LINE_BYTES
      {
        var newline := FindNewline(chunk, startIndex);
        var endIndex := if newline == |chunk| then |chunk| else newline + 1;
        var segment := chunk[startIndex..endIndex];
        assert newline < |chunk| ==> segment[..|segment| - 1] == chunk[startIndex..newline];
        assert newline == |chunk| ==> segment == chunk[startIndex..newline];
        assert chunk[..endIndex] == chunk[..startIndex] + segment;
        Consume(segment, newline < |chunk|);
        startIndex := endIndex;
      }
      assert chunk[..|chunk|] == chunk;
    }

    method Finish()
      requires Valid()
      modifies this
      ensures stream == old(stream)
      ensures delivered == Short(Lines(stream)) && errors == LongCount(Lines(stream))
    {
      if pending != [] && !dropping {
        delivered := delivered + [pending];
      }
      if Rest(stream) != [] {
        AppendLine(Terminated(stream), Rest(stream));
      }
      assert Rest(stream) == [] ==> Lines(stream) == Terminated(stream);
    }
  }

  // Whatever sizes the pipe delivers, exactly the stream's short lines are delivered,
  // in order, and one error is recorded for each longer line.
  method DrainStdout(chunks: seq<Bytes>) returns (delivered: seq<Bytes>, errors: nat)
    ensures delivered == Short(Lines(Joined(chunks)))
    ensures errors == LongCount(Lines(Joined(chunks)))
  {
    var drain := new StdoutDrain();
    for i := 0 to |chunks|
      invariant drain.Valid() && fresh(drain) && drain.stream == Joined(chunks[..i])
    {
      drain.Chunk(chunks[i]);
      assert chunks[..i + 1][..i] == chunks[..i];
    }
    assert chunks[..|chunks|] == chunks;
    drain.Finish();
    delivered, errors := drain.delivered, drain.errors;
  }
}
