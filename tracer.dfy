/**
 * The performance trace of debug.h: `BufferedFile`, a text file written
 * through a large in-memory buffer, and `PerformanceTracer`, whose static
 * functions format one line per event into that file when performance
 * tracing is switched on.
 *
 * The elapsed time (`%f` of a clock reading) is passed in as its text.
 */
module Tracer {
  import Serialize

  /** `BufferedFile::BufSize`. */
  const BufSize: nat := 10 * 1024 * 1024

  /** The most `_buf` holds once `<<` has returned. */
  const BufLimit: nat := BufSize - 1024

  class BufferedFile {
    /** What `_file` has been given so far. */
    var written: string
    /** `_buf`. */
    var buf: string
    /** Everything ever appended, in order. */
    ghost var appended: string

    /** Nothing appended is lost or reordered. */
    ghost predicate Consistent()
      reads this
    {
      written + buf == appended
    }

    /** ... and the buffer is within its limit. */
    ghost predicate Valid()
      reads this
    {
      Consistent() && |buf| <= BufLimit
    }

    constructor()
      ensures Valid() && written == [] && buf == [] && appended == []
    {
      written := [];
      buf := [];
      appended := [];
    }

    /** `flush()`: hands the buffer to the file and empties it. */
    method Flush()
      requires Consistent()
      modifies this
      ensures Valid() && appended == old(appended)
      ensures written == old(written) + old(buf) && buf == []
    {
      written := written + buf;
      buf := [];
    }

    /**
     * `operator <<`: appends `s` (a C string, so its characters before the
     * terminating NUL) and flushes once the buffer is past `BufSize - 1024`.
     */
    method Append(s: string)
      requires Valid()
      modifies this
      ensures Valid() && appended == old(appended) + s
      ensures |old(buf)| + |s| > BufLimit ==> written == old(written) + old(buf) + s && buf == []
      ensures |old(buf)| + |s| <= BufLimit ==> written == old(written) && buf == old(buf) + s
    {
      buf := buf + s;
      appended := appended + s;
      if |buf| > BufLimit {
        Flush();
      }
    }

    /** The destructor: one last flush, after which the file holds everything appended. */
    method Close()
      requires Valid()
      modifies this
      ensures Valid() && appended == old(appended) && written == appended && buf == []
    {
      Flush();
    }
  }

  // ---------------------------------------------------------------------
  // The trace lines

  /** `%d`: an optional minus sign and the decimal digits. */
  function IntText(n: int): (r: string)
    ensures |r| > 0 && '\n' !in r
  {
    if n >= 0 then Serialize.Decimal(n) else "-" + Serialize.Decimal(-n)
  }

  /** `%d` denotes its argument: the digits give `|n|`, after a minus sign exactly when `n` is negative. */
  lemma IntTextDenotes(n: int)
    ensures var r, sign := IntText(n), if n < 0 then 1 else 0;
      sign <= |r| && (r[0] == '-' <==> n < 0) &&
      (forall i :: sign <= i < |r| ==> Serialize.IsDigit(r[i])) &&
      Serialize.DigitsValue(r[sign..]) == if n < 0 then -n else n
  {
    var d := if n < 0 then -n else n;
    Serialize.DecimalValue(d);
    var r := IntText(n);
    if n < 0 {
      assert r[1..] == Serialize.Decimal(d);
    } else {
      assert r[0..] == r;
    }
  }

  /**
   * The key of a reduce event as `ReduceTracer<KT>::print` shows it: an `int`
   * key (the specialisation for `int`) or a key already turned into text (a
   * `std::string` key as it is, any other key through `std::to_string`).
   */
  datatype TraceKey = IntKey(n: int) | TextKey(text: string)

  /** One event line: the elapsed time, `": "`, the event's fields, and a newline. */
  function EventLine(elapsed: string, fields: string): string
  {
    elapsed + ": " + fields + "\n"
  }

  /** `"%f: master_thread: %s\n"`. */
  function MasterLine(elapsed: string, prompt: string): string
  {
    EventLine(elapsed, "master_thread: " + prompt)
  }

  /** `"%f: worker_thread[%d]: %s\n"`. */
  function WorkerThreadLine(elapsed: string, workerId: int, prompt: string): string
  {
    EventLine(elapsed, "worker_thread[" + IntText(workerId) + "]: " + prompt)
  }

  /** `"%f: worker[%d]: map[%d]: %s\n"`. */
  function MapLine(elapsed: string, workerId: int, mapId: int, prompt: string): string
  {
    EventLine(elapsed, "worker[" + IntText(workerId) + "]: map[" + IntText(mapId) + "]: " + prompt)
  }

  /**
   * `ReduceTracer<KT>::print`: `"%f: worker[%d]: reduce[%s]: %s\n"`, except
   * that the `int` specialisation writes `workerId[` where the others write
   * `worker[`.
   */
  function ReduceLine(elapsed: string, workerId: int, key: TraceKey, prompt: string): string
  {
    match key
    case TextKey(text) =>
      EventLine(elapsed, "worker[" + IntText(workerId) + "]: reduce[" + text + "]: " + prompt)
    case IntKey(n) =>
      EventLine(elapsed, "workerId[" + IntText(workerId) + "]: reduce[" + IntText(n) + "]: " + prompt)
  }

  /** `"%f: worker[%d]: merge[%d]: %s\n"`. */
  function MergeLine(elapsed: string, workerId: int, mergeId: int, prompt: string): string
  {
    EventLine(elapsed, "worker[" + IntText(workerId) + "]: merge[" + IntText(mergeId) + "]: " + prompt)
  }

  /** A string that ends in its one and only newline. */
  predicate IsOneLine(line: string)
  {
    |line| > 0 && line[|line| - 1] == '\n' && forall i :: 0 <= i < |line| - 1 ==> line[i] != '\n'
  }

  /** An event line is one line as long as the elapsed text and the fields have no newline. */
  lemma EventLineIsOneLine(elapsed: string, fields: string)
    requires '\n' !in elapsed && '\n' !in fields
    ensures IsOneLine(EventLine(elapsed, fields))
  {
    var body := elapsed + ": " + fields;
    var line := EventLine(elapsed, fields);
    assert line == body + "\n";
    forall i | 0 <= i < |line| - 1 ensures line[i] != '\n' {
      assert line[i] == body[i];
      if i < |elapsed| {
        assert body[i] == elapsed[i];
      } else if i >= |elapsed| + 2 {
        assert body[i] == fields[i - |elapsed| - 2];
      }
    }
  }

  /** The fixed parts of the trace formats have no newline. */
  lemma LabelsAreOneLine()
    ensures '\n' !in "master_thread: " && '\n' !in "worker_thread[" && '\n' !in "]: "
    ensures '\n' !in "worker[" && '\n' !in "workerId[" && '\n' !in "]: map["
    ensures '\n' !in "]: reduce[" && '\n' !in "]: merge["
  {
  }

  /**
   * Every trace function writes exactly one line per event, whatever the
   * numbers, as long as the elapsed text, the prompt and a text key have no
   * newline in them.
   */
  lemma TraceLinesAreOneLine(elapsed: string, workerId: int, id: int, key: TraceKey, prompt: string)
    requires '\n' !in elapsed && '\n' !in prompt
    requires key.TextKey? ==> '\n' !in key.text
    ensures IsOneLine(MasterLine(elapsed, prompt))
    ensures IsOneLine(WorkerThreadLine(elapsed, workerId, prompt))
    ensures IsOneLine(MapLine(elapsed, workerId, id, prompt))
    ensures IsOneLine(ReduceLine(elapsed, workerId, key, prompt))
    ensures IsOneLine(MergeLine(elapsed, workerId, id, prompt))
  {
    var w, n := IntText(workerId), IntText(id);
    LabelsAreOneLine();
    assert IsOneLine(MasterLine(elapsed, prompt)) by {
      EventLineIsOneLine(elapsed, "master_thread: " + prompt);
    }
    assert IsOneLine(WorkerThreadLine(elapsed, workerId, prompt)) by {
      EventLineIsOneLine(elapsed, "worker_thread[" + w + "]: " + prompt);
    }
    assert IsOneLine(MapLine(elapsed, workerId, id, prompt)) by {
      EventLineIsOneLine(elapsed, "worker[" + w + "]: map[" + n + "]: " + prompt);
    }
    assert IsOneLine(MergeLine(elapsed, workerId, id, prompt)) by {
      EventLineIsOneLine(elapsed, "worker[" + w + "]: merge[" + n + "]: " + prompt);
    }
    match key
    case TextKey(text) =>
      EventLineIsOneLine(elapsed, "worker[" + w + "]: reduce[" + text + "]: " + prompt);
    case IntKey(k) =>
      EventLineIsOneLine(elapsed, "workerId[" + w + "]: reduce[" + IntText(k) + "]: " + prompt);
  }

  // ---------------------------------------------------------------------
  // The tracer

  class PerformanceTracer {
    /** `__performance_trace`. */
    const enabled: bool
    /** The static `_file`. */
    const file: BufferedFile

    ghost predicate Valid()
      reads this, file
    {
      file.Valid()
    }

    constructor(enabled: bool, file: BufferedFile)
      requires file.Valid()
      ensures Valid() && this.enabled == enabled && this.file == file
    {
      this.enabled := enabled;
      this.file := file;
    }

    /** Appends `line` to the trace file when tracing is on; does nothing at all otherwise. */
    method Emit(line: string)
      requires Valid()
      modifies file
      ensures Valid()
      ensures enabled ==> file.appended == old(file.appended) + line
      ensures !enabled ==> unchanged(file)
    {
      if !enabled {
        return;
      }
      file.Append(line);
    }

    /** `master_thread_trace(prompt)`. */
    method MasterThreadTrace(elapsed: string, prompt: string)
      requires Valid()
      modifies file
      ensures Valid()
      ensures enabled ==> file.appended == old(file.appended) + MasterLine(elapsed, prompt)
      ensures !enabled ==> unchanged(file)
    {
      Emit(MasterLine(elapsed, prompt));
    }

    /** `worker_thread_trace(workerId, prompt)`. */
    method WorkerThreadTrace(elapsed: string, workerId: int, prompt: string)
      requires Valid()
      modifies file
      ensures Valid()
      ensures enabled ==> file.appended == old(file.appended) + WorkerThreadLine(elapsed, workerId, prompt)
      ensures !enabled ==> unchanged(file)
    {
      Emit(WorkerThreadLine(elapsed, workerId, prompt));
    }

    /** `map_trace(workerId, mapId, prompt)`. */
    method MapTrace(elapsed: string, workerId: int, mapId: int, prompt: string)
      requires Valid()
      modifies file
      ensures Valid()
      ensures enabled ==> file.appended == old(file.appended) + MapLine(elapsed, workerId, mapId, prompt)
      ensures !enabled ==> unchanged(file)
    {
      Emit(MapLine(elapsed, workerId, mapId, prompt));
    }

    /** `reduce_trace(workerId, key, prompt)`. */
    method ReduceTrace(elapsed: string, workerId: int, key: TraceKey, prompt: string)
      requires Valid()
      modifies file
      ensures Valid()
      ensures enabled ==> file.appended == old(file.appended) + ReduceLine(elapsed, workerId, key, prompt)
      ensures !enabled ==> unchanged(file)
    {
      Emit(ReduceLine(elapsed, workerId, key, prompt));
    }

    /** `merge_trace(workerId, mergeId, prompt)`. */
    method MergeTrace(elapsed: string, workerId: int, mergeId: int, prompt: string)
      requires Valid()
      modifies file
      ensures Valid()
      ensures enabled ==> file.appended == old(file.appended) + MergeLine(elapsed, workerId, mergeId, prompt)
      ensures !enabled ==> unchanged(file)
    {
      Emit(MergeLine(elapsed, workerId, mergeId, prompt));
    }
  }
}
