/** Bounded reading of a process (runner.py `run_process`). */
module Streams {

  newtype Byte = x: int | 0 <= x < 256

  datatype Fd = Stdout | Stderr

  /** One thing that can happen to a descriptor: it yields a chunk (an empty one is its end), or it
      has nothing yet. */
  datatype Step = Chunk(fd: Fd, bytes: seq<Byte>) | Blocked(fd: Fd)

  predicate Ends(s: Step, fd: Fd) {
    s.fd == fd && s.Chunk? && s.bytes == []
  }

  predicate Ended(steps: seq<Step>, fd: Fd) {
    exists i :: 0 <= i < |steps| && Ends(steps[i], fd)
  }

  /** The bytes a descriptor yields, in order, up to its end. */
  function Produced(steps: seq<Step>, fd: Fd): seq<Byte> {
    if steps == [] then []
    else
      var front, last := steps[..|steps| - 1], steps[|steps| - 1];
      if last.fd == fd && last.Chunk? && !Ended(front, fd) then Produced(front, fd) + last.bytes
      else Produced(front, fd)
  }

  function Cut(bytes: seq<Byte>, limit: nat): seq<Byte> {
    if |bytes| <= limit then bytes else bytes[..limit]
  }

  lemma CutAppend(a: seq<Byte>, b: seq<Byte>, limit: nat)
    ensures Cut(a + b, limit) == Cut(a, limit) + Cut(b, limit - |Cut(a, limit)|)
    ensures |a + b| > limit <==> |a| > limit || |b| > limit - |Cut(a, limit)|
  {
  }

  /** A stream of `run_process`: a buffer that never outgrows its limit. */
  class Stream {
    const limit: nat
    var buffer: seq<Byte>

    constructor (limit: nat)
      ensures this.limit == limit && buffer == []
    {
      this.limit, buffer := limit, [];
    }

    /** Takes in a chunk; tells whether some of it had to be thrown away. */
    method Take(chunk: seq<Byte>, ghost before: seq<Byte>) returns (overflow: bool)
      requires buffer == Cut(before, limit)
      modifies this`buffer
      ensures buffer == Cut(before + chunk, limit)
      ensures overflow || |before| > limit <==> |before + chunk| > limit
    {
      var available := if limit > |buffer| then limit - |buffer| else 0;
      CutAppend(before, chunk, limit);
      if available > 0 {
        buffer := buffer + (if |chunk| <= available then chunk else chunk[..available]);
      }
      overflow := |chunk| > available;
    }
  }

  lemma EndedSnoc(steps: seq<Step>, s: Step, fd: Fd)
    ensures Ended(steps + [s], fd) <==> Ended(steps, fd) || Ends(s, fd)
  {
    var all := steps + [s];
    if Ended(steps, fd) {
      var i :| 0 <= i < |steps| && Ends(steps[i], fd);
      assert Ends(all[i], fd);
    }
    if Ends(s, fd) { assert Ends(all[|steps|], fd); }
  }

  /** The read loop of `run_process`: whatever the chunking and the interleaving, each stream keeps
      exactly the first bytes it yields, and the flag tells exactly whether any byte was lost. */
  method ReadLoop(steps: seq<Step>, outLimit: nat, errLimit: nat)
    returns (stdout: seq<Byte>, stderr: seq<Byte>, truncated: bool)
    ensures stdout == Cut(Produced(steps, Stdout), outLimit)
    ensures stderr == Cut(Produced(steps, Stderr), errLimit)
    ensures truncated <==> |Produced(steps, Stdout)| > outLimit || |Produced(steps, Stderr)| > errLimit
  {
    var out := new Stream(outLimit);
    var err := new Stream(errLimit);
    var open := {Stdout, Stderr};
    truncated := false;
    for i := 0 to |steps|
      invariant out != err && fresh(out) && fresh(err) && out.limit == outLimit && err.limit == errLimit
      invariant Stdout in open <==> !Ended(steps[..i], Stdout)
      invariant Stderr in open <==> !Ended(steps[..i], Stderr)
      invariant out.buffer == Cut(Produced(steps[..i], Stdout), outLimit)
      invariant err.buffer == Cut(Produced(steps[..i], Stderr), errLimit)
      invariant truncated <==> |Produced(steps[..i], Stdout)| > outLimit || |Produced(steps[..i], Stderr)| > errLimit
    {
      var s := steps[i];
      assert steps[..i + 1] == steps[..i] + [s];
      assert (steps[..i] + [s])[..i] == steps[..i];
      EndedSnoc(steps[..i], s, Stdout);
      EndedSnoc(steps[..i], s, Stderr);
      if s.fd in open && s.Chunk? {
        if s.bytes == [] {
          open := open - {s.fd};
        } else {
          var overflow;
          if s.fd == Stdout {
            overflow := out.Take(s.bytes, Produced(steps[..i], Stdout));
          } else {
            overflow := err.Take(s.bytes, Produced(steps[..i], Stderr));
          }
          if overflow {
            truncated := true;
          }
        }
      }
    }
    assert steps[..|steps|] == steps;
    stdout, stderr := out.buffer, err.buffer;
  }
}
