/**
 * What an open file handle means, whatever backend is behind it: a position in
 * fixed content. Reads may be short, seeks are checked, pread moves nothing.
 */
module FileHandles {
  import opened Bytes

  datatype Option<+T> = None | Some(value: T)

  datatype Whence = Set | Cur | End | Other

  datatype Handle = Handle(content: bytes, pos: nat)

  function Min(a: int, b: int): int {
    if a <= b then a else b
  }

  function Max(a: nat, b: nat): nat {
    if a >= b then a else b
  }

  predicate Placed(h: Handle) {
    h.pos <= |h.content|
  }

  /** Where a seek leads in a file of that size, or -1 when it is refused. */
  function TargetIn(size: nat, pos: nat, offset: int, whence: Whence): int {
    var t := match whence
      case Set => offset
      case Cur => pos + offset
      case End => size + offset
      case Other => -1;
    if 0 <= t <= size then t else -1
  }

  function Target(h: Handle, offset: int, whence: Whence): int {
    TargetIn(|h.content|, h.pos, offset, whence)
  }

  /** The distance from where the seek starts to t, both ends of the file included. */
  ghost predicate LeadsTo(size: nat, pos: nat, offset: int, whence: Whence, t: int) {
    && 0 <= t <= size
    && (whence.Set? ==> t == offset)
    && (whence.Cur? ==> t - pos == offset)
    && (whence.End? ==> t - size == offset)
    && !whence.Other?
  }

  /** A seek is refused exactly when it leads nowhere in the file. */
  lemma TargetLeads(size: nat, pos: nat, offset: int, whence: Whence)
    ensures forall t :: LeadsTo(size, pos, offset, whence, t) <==> t != -1 && TargetIn(size, pos, offset, whence) == t
  {
  }

  /** pread: None for a negative offset. */
  function PreadBytes(content: bytes, count: nat, offset: int): Option<bytes> {
    if offset < 0 then None
    else if count == 0 || offset >= |content| then Some([])
    else Some(content[offset..offset + Min(count, |content| - offset)])
  }

  datatype Op = Read(count: nat) | Pread(length: nat, at: int) | Seek(offset: int, whence: Whence) | Tell

  datatype Answer = Data(bytes: bytes) | Position(at: int) | Refused

  function PreadAnswer(content: bytes, count: nat, offset: int): Answer {
    var data := PreadBytes(content, count, offset);
    if data == None then Refused else Data(data.value)
  }

  /** Nothing at the end or when nothing is asked; otherwise at least one byte. */
  predicate Granted(h: Handle, count: nat, n: nat)
    requires Placed(h)
  {
    n <= Min(count, |h.content| - h.pos) && (n == 0 ==> count == 0 || h.pos == |h.content|)
  }

  /** How much a read delivers when the stream is willing to give `grant` bytes. */
  function Clamped(h: Handle, count: nat, grant: nat): (n: nat)
    requires Placed(h)
    ensures Granted(h, count, n)
  {
    var most := Min(count, |h.content| - h.pos);
    if grant < 1 || grant > most then most else grant
  }

  predicate Answers(h: Handle, op: Op, a: Answer)
    requires Placed(h)
  {
    match op
    case Read(count) =>
      a.Data? && Granted(h, count, |a.bytes|) && a.bytes == h.content[h.pos..h.pos + |a.bytes|]
    case Pread(length, at) =>
      a == PreadAnswer(h.content, length, at)
    case Seek(offset, whence) =>
      a == if Target(h, offset, whence) < 0 then Refused else Position(Target(h, offset, whence))
    case Tell => a == Position(h.pos)
  }

  function After(h: Handle, op: Op, a: Answer): (r: Handle)
    requires Placed(h) && Answers(h, op, a)
    ensures Placed(r) && r.content == h.content
  {
    match op
    case Read(_) => h.(pos := h.pos + |a.bytes|)
    case Seek(offset, whence) => if Target(h, offset, whence) < 0 then h else h.(pos := Target(h, offset, whence))
    case _ => h
  }

  /** What a handle answers: positions and ranges of its content. */
  lemma AnswersAre(h: Handle, op: Op, a: Answer)
    requires Placed(h)
    ensures op.Tell? ==> (Answers(h, op, a) <==> a == Position(h.pos))
    ensures op.Seek? ==>
      (Answers(h, op, a) <==>
         if a.Position? then LeadsTo(|h.content|, h.pos, op.offset, op.whence, a.at)
         else a == Refused && forall t :: !LeadsTo(|h.content|, h.pos, op.offset, op.whence, t))
    ensures op.Pread? ==>
      (Answers(h, op, a) <==>
         if op.at < 0 then a == Refused
         else if op.at > |h.content| then a == Data([])
         else a.Data? && a.bytes == h.content[op.at..][..Min(op.length, |h.content| - op.at)])
    ensures op.Seek? && a.Position? && Answers(h, op, a) ==> After(h, op, a) == Handle(h.content, a.at)
  {
    if op.Seek? {
      TargetLeads(|h.content|, h.pos, op.offset, op.whence);
      var t := Target(h, op.offset, op.whence);
      assert t != -1 ==> LeadsTo(|h.content|, h.pos, op.offset, op.whence, t);
    }
  }

  // ---- runs -------------------------------------------------------------------

  predicate LegalTrace(h: Handle, ops: seq<Op>, answers: seq<Answer>)
    requires Placed(h)
    decreases |ops|
  {
    |ops| == |answers| &&
    (ops != [] ==>
      && Answers(h, ops[0], answers[0])
      && LegalTrace(After(h, ops[0], answers[0]), ops[1..], answers[1..]))
  }

  function Final(h: Handle, ops: seq<Op>, answers: seq<Answer>): (r: Handle)
    requires Placed(h) && LegalTrace(h, ops, answers)
    ensures Placed(r) && r.content == h.content
    decreases |ops|
  {
    if ops == [] then h else Final(After(h, ops[0], answers[0]), ops[1..], answers[1..])
  }

  lemma {:induction false} TraceSnoc(h: Handle, ops: seq<Op>, answers: seq<Answer>, op: Op, a: Answer)
    requires Placed(h) && LegalTrace(h, ops, answers)
    requires Answers(Final(h, ops, answers), op, a)
    ensures LegalTrace(h, ops + [op], answers + [a])
    ensures Final(h, ops + [op], answers + [a]) == After(Final(h, ops, answers), op, a)
    decreases |ops|
  {
    var allOps, all := ops + [op], answers + [a];
    if ops == [] {
      assert allOps == [op] && all == [a];
      assert LegalTrace(After(h, op, a), [], []);
      assert allOps[1..] == [] && all[1..] == [];
    } else {
      assert allOps[1..] == ops[1..] + [op] && all[1..] == answers[1..] + [a];
      TraceSnoc(After(h, ops[0], answers[0]), ops[1..], answers[1..], op, a);
    }
  }

  /** The bytes a run's reads delivered, in order. */
  function Delivered(ops: seq<Op>, answers: seq<Answer>): bytes
    requires |ops| == |answers|
    decreases |ops|
  {
    if ops == [] then []
    else (if ops[0].Read? && answers[0].Data? then answers[0].bytes else []) + Delivered(ops[1..], answers[1..])
  }

  /** Without seeks, reads deliver the content from the first position to the last, however they are cut. */
  lemma {:induction false} ReadsAreContiguous(h: Handle, ops: seq<Op>, answers: seq<Answer>)
    requires Placed(h) && LegalTrace(h, ops, answers)
    requires forall i :: 0 <= i < |ops| ==> !ops[i].Seek?
    ensures h.pos <= Final(h, ops, answers).pos
    ensures Delivered(ops, answers) == h.content[h.pos..Final(h, ops, answers).pos]
    decreases |ops|
  {
    if ops != [] {
      ReadsAreContiguous(After(h, ops[0], answers[0]), ops[1..], answers[1..]);
    }
  }

  /** Reading until nothing comes delivers the whole rest of the content. */
  lemma ReadToTheEnd(h: Handle, ops: seq<Op>, answers: seq<Answer>, count: nat)
    requires Placed(h) && LegalTrace(h, ops, answers)
    requires forall i :: 0 <= i < |ops| ==> !ops[i].Seek?
    requires count > 0 && Answers(Final(h, ops, answers), Read(count), Data([]))
    ensures Delivered(ops, answers) == h.content[h.pos..]
  {
    ReadsAreContiguous(h, ops, answers);
  }

  lemma TraceCons(h: Handle, op: Op, a: Answer, ops: seq<Op>, answers: seq<Answer>)
    requires Placed(h) && Answers(h, op, a) && LegalTrace(After(h, op, a), ops, answers)
    ensures LegalTrace(h, [op] + ops, [a] + answers)
    ensures Final(h, [op] + ops, [a] + answers) == Final(After(h, op, a), ops, answers)
  {
    hide Answers, After;
    assert ([op] + ops)[1..] == ops && ([a] + answers)[1..] == answers;
  }

  function WithoutPreadOps(ops: seq<Op>): seq<Op> {
    if ops == [] then []
    else (if ops[0].Pread? then [] else [ops[0]]) + WithoutPreadOps(ops[1..])
  }

  function WithoutPreadAnswers(ops: seq<Op>, answers: seq<Answer>): seq<Answer>
    requires |ops| == |answers|
    decreases |ops|
  {
    if ops == [] then []
    else (if ops[0].Pread? then [] else [answers[0]]) + WithoutPreadAnswers(ops[1..], answers[1..])
  }

  /** Leaving every pread out changes no other answer and not the final position. */
  lemma {:induction false} PreadsAreInvisible(h: Handle, ops: seq<Op>, answers: seq<Answer>)
    requires Placed(h) && LegalTrace(h, ops, answers)
    ensures LegalTrace(h, WithoutPreadOps(ops), WithoutPreadAnswers(ops, answers))
    ensures Final(h, WithoutPreadOps(ops), WithoutPreadAnswers(ops, answers)) == Final(h, ops, answers)
    decreases |ops|
  {
    if ops != [] {
      var rest, restAnswers := WithoutPreadOps(ops[1..]), WithoutPreadAnswers(ops[1..], answers[1..]);
      PreadsAreInvisible(After(h, ops[0], answers[0]), ops[1..], answers[1..]);
      if !ops[0].Pread? {
        TraceCons(h, ops[0], answers[0], rest, restAnswers);
      } else {
        assert [] + rest == rest && [] + restAnswers == restAnswers;
      }
    }
  }

  // ---- the native handle ------------------------------------------------------

  /** The one answer of a handle that seeks natively and never reads short. */
  function NativeAnswer(h: Handle, op: Op): (a: Answer)
    requires Placed(h)
    ensures Answers(h, op, a)
  {
    match op
    case Read(count) => Data(h.content[h.pos..h.pos + Min(count, |h.content| - h.pos)])
    case Pread(length, at) =>
      PreadAnswer(h.content, length, at)
    case Seek(offset, whence) =>
      if Target(h, offset, whence) < 0 then Refused else Position(Target(h, offset, whence))
    case Tell => Position(h.pos)
  }

  /** A legal answer differs from the native one only by stopping a read early. */
  lemma LegalIsNativeUpToShortReads(h: Handle, op: Op, a: Answer)
    requires Placed(h) && Answers(h, op, a)
    ensures !op.Read? ==> a == NativeAnswer(h, op)
    ensures op.Read? ==> a.bytes <= NativeAnswer(h, op).bytes
    ensures op.Read? ==> (a.bytes == [] <==> NativeAnswer(h, op).bytes == [])
  {
  }
}
