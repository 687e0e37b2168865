/**
 execsnoop's record stream: the events, and what the history of a stream says is pending for a
 pid. These definitions know nothing of how either consumer stores its state.
 */
module ArgvEvents {
  const MAXARGS: nat := 20
  const ARGSIZE: nat := 128
  const TABLE_SIZE: nat := 4096

  type Pid = nat

  datatype Event =
    | Arg(pid: Pid, uid: nat, comm: string, arg: string)
    | Ret(pid: Pid, uid: nat, comm: string)

  /** One printed command line. */
  datatype Line = Line(pid: Pid, uid: nat, comm: string, argv: seq<string>)

  predicate SameSlot(p: Pid, q: Pid) {
    p % TABLE_SIZE == q % TABLE_SIZE
  }

  predicate ArgOf(e: Event, p: Pid) {
    e.Arg? && e.pid == p
  }

  predicate RetOf(e: Event, p: Pid) {
    e.Ret? && e.pid == p
  }

  /** An argument of another pid that shares `p`'s slot in the C table. */
  predicate Intruder(e: Event, p: Pid) {
    e.Arg? && e.pid != p && SameSlot(e.pid, p)
  }

  /** `p`'s ARG events since its last RET. */
  function SinceRet(evs: seq<Event>, p: Pid): seq<Event> {
    if evs == [] then []
    else
      var (evs', e) := (evs[..|evs|-1], evs[|evs|-1]);
      if RetOf(e, p) then []
      else if ArgOf(e, p) then SinceRet(evs', p) + [e]
      else SinceRet(evs', p)
  }

  /** `p`'s ARG events since the later of its last RET and the last intruder. */
  function SinceBreak(evs: seq<Event>, p: Pid): seq<Event> {
    if evs == [] then []
    else
      var (evs', e) := (evs[..|evs|-1], evs[|evs|-1]);
      if RetOf(e, p) || Intruder(e, p) then []
      else if ArgOf(e, p) then SinceBreak(evs', p) + [e]
      else SinceBreak(evs', p)
  }

  function Strings(args: seq<Event>): seq<string>
    requires forall e :: e in args ==> e.Arg?
  {
    seq(|args|, i requires 0 <= i < |args| => args[i].arg)
  }

  function First<T>(n: nat, s: seq<T>): seq<T> {
    if |s| <= n then s else s[..n]
  }

  /** A bounded string copy into an ARGSIZE buffer: the kernel's read of an argument, and the table's `strncpy`. */
  function CopyArg(s: string): string {
    First(ARGSIZE - 1, s)
  }

  /** `out` is `s`, or its first 127 characters if it is longer. */
  predicate Cut(out: string, s: string) {
    out <= s && |out| == if |s| <= 127 then |s| else 127
  }

  /** The first 20 of the strings, each cut to 127 characters. */
  ghost predicate CutAll(outs: seq<string>, ss: seq<string>) {
    && |outs| == (if |ss| <= 20 then |ss| else 20)
    && forall i :: 0 <= i < |outs| ==> Cut(outs[i], ss[i])
  }

  lemma CopyCuts(s: string)
    ensures Cut(CopyArg(s), s)
  {
  }

  lemma ConcatLast<T>(a: seq<T>, b: seq<T>)
    requires b != []
    ensures a + b == a + b[..|b|-1] + [b[|b|-1]]
  {
  }

  lemma SuffixLast<T>(s: seq<T>, k: nat)
    requires k < |s|
    ensures s[k..] == s[..|s|-1][k..] + [s[|s|-1]]
  {
  }
}
