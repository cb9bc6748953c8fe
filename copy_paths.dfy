/** CopyPath: the immutable list of steps that names a saved copy of an item,
    with its wire form (the step count, then each step). */
module CopyPaths {
  import opened Wrappers
  import opened Wire
  import PathSanitiser

  datatype CopyPath = CopyPath(steps: seq<string>)

  /** The shared empty path. */
  const Empty: CopyPath := CopyPath([])

  /** A Java list holds at most the largest int of elements. */
  predicate Encodable(p: CopyPath) {
    |p.steps| <= MaxInt32
  }

  function Length(p: CopyPath): nat {
    |p.steps|
  }

  function IsEmpty(p: CopyPath): (b: bool)
    ensures b <==> Length(p) == 0
  {
    p.steps == []
  }

  lemma EmptyHasNoSteps()
    ensures Length(Empty) == 0 && IsEmpty(Empty)
    ensures forall p: CopyPath :: IsEmpty(p) ==> p == Empty
  {
  }

  /** The constructor copies the steps it is given into a list of its own. */
  method FromArray(a: array<string>) returns (p: CopyPath)
    ensures p.steps == a[..]
    ensures Length(p) == a.Length
  {
    var steps: seq<string> := [];
    for i := 0 to a.Length
      invariant steps == a[..i]
    {
      steps := steps + [a[i]];
    }
    p := CopyPath(steps);
  }

  /** getStepsSanitised: each step put through the sanitiser, in order. */
  function StepsSanitised(p: CopyPath): (r: seq<string>)
    ensures |r| == Length(p)
    ensures forall i | 0 <= i < Length(p) :: r[i] == PathSanitiser.Sanitised(p.steps[i])
  {
    PathSanitiser.SanitisedAll(p.steps)
  }

  /** The sanitised steps determine the path. */
  lemma StepsSanitisedRecoverable(p: CopyPath)
    ensures PathSanitiser.DesanitisedAll(StepsSanitised(p)) == p.steps
  {
    PathSanitiser.RoundTripAll(p.steps);
  }

  // ---------------------------------------------------------------------
  // Wire form
  // ---------------------------------------------------------------------

  /** What writeToBuf appends: the step count, then each step. */
  function Encode(p: CopyPath): seq<Value>
    requires Encodable(p)
  {
    [IntVal(|p.steps| as int32)] + Utfs(p.steps)
  }

  /** What readFromBuf takes: a count, then that many strings. A negative
      count makes the list's constructor throw. Gives the path and the rest. */
  function Decode(vals: seq<Value>): (r: Option<(CopyPath, seq<Value>)>)
    ensures r.Some? ==> Encodable(r.value.0)
  {
    if vals == [] || !vals[0].IntVal? || vals[0].i < 0 then None
    else match TakeUtfs(vals[1..], vals[0].i as nat)
      case None => None
      case Some((steps, rest)) =>
        TakeUtfsInverse(vals[1..], vals[0].i as nat, steps, rest);
        Some((CopyPath(steps), rest))
  }

  /** readFromBuf after writeToBuf gives the same steps and consumes exactly
      what was written. */
  lemma DecodeEncode(p: CopyPath, rest: seq<Value>)
    requires Encodable(p)
    ensures Decode(Encode(p) + rest) == Some((p, rest))
  {
    var vals := Encode(p) + rest;
    assert vals[1..] == Utfs(p.steps) + rest;
    TakeUtfsOfUtfs(p.steps, rest);
  }

  /** Whatever readFromBuf accepts is exactly the encoding of what it returns. */
  lemma EncodeDecode(vals: seq<Value>, p: CopyPath, rest: seq<Value>)
    requires Decode(vals) == Some((p, rest))
    ensures Encodable(p) && vals == Encode(p) + rest
  {
    var n := vals[0].i as nat;
    TakeUtfsInverse(vals[1..], n, p.steps, rest);
    assert vals == [vals[0]] + vals[1..];
  }

  lemma DecodeNegativeCount(n: int32, rest: seq<Value>)
    requires n < 0
    ensures Decode([IntVal(n)] + rest) == None
  {
  }

  method WriteToBuf(p: CopyPath, buf: Buffer)
    requires Encodable(p)
    modifies buf
    ensures buf.contents == old(buf.contents) + Encode(p)
  {
    buf.WriteInt(|p.steps| as int32);
    buf.WriteUtfs(p.steps);
  }

  method ReadFromBuf(buf: Buffer) returns (r: Option<CopyPath>)
    modifies buf
    ensures r.Some? <==> Decode(old(buf.contents)).Some?
    ensures r.Some? ==> Decode(old(buf.contents)) == Some((r.value, buf.contents))
    ensures |buf.contents| <= |old(buf.contents)|
    ensures buf.contents == old(buf.contents)[|old(buf.contents)| - |buf.contents|..]
  {
    ghost var vals := buf.contents;
    var length := buf.ReadInt();
    if length.None? || length.value < 0 {
      return None;
    }
    var n := length.value as nat;
    var steps: seq<string> := [];
    for i := 0 to n
      invariant TakeUtfs(vals[1..], i) == Some((steps, buf.contents))
      invariant |buf.contents| <= |vals| && buf.contents == vals[|vals| - |buf.contents|..]
    {
      var step := buf.ReadUtf();
      if step.None? {
        assert TakeUtfs(vals[1..], i + 1) == None;
        assert TakeUtfs(vals[1..], n) == None by {
          TakeUtfsFailureSticks(vals[1..], i + 1, n);
        }
        return None;
      }
      steps := steps + [step.value];
    }
    r := Some(CopyPath(steps));
  }
}
