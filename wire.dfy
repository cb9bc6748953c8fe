/** The network packet buffer, seen abstractly: a first-in first-out sequence
    of tagged values. A write appends one value; a read takes the value at the
    front, and fails (the Java buffer throws) when the front holds nothing or a
    value of the other kind. */
module Wire {
  import opened Wrappers

  /** Java's 32-bit int. */
  newtype int32 = x: int | -0x8000_0000 <= x < 0x8000_0000

  const MaxInt32: int := 0x7fff_ffff

  datatype Value = IntVal(i: int32) | UtfVal(s: string)

  /** The values that writeUtf puts on the wire for each string of ss, in order. */
  function Utfs(ss: seq<string>): (r: seq<Value>)
    ensures |r| == |ss|
    ensures forall i | 0 <= i < |ss| :: r[i] == UtfVal(ss[i])
  {
    if ss == [] then [] else [UtfVal(ss[0])] + Utfs(ss[1..])
  }

  lemma UtfsSnoc(ss: seq<string>, s: string)
    ensures Utfs(ss + [s]) == Utfs(ss) + [UtfVal(s)]
  {
    var l, r := Utfs(ss + [s]), Utfs(ss) + [UtfVal(s)];
    assert |l| == |r|;
    forall i | 0 <= i < |l| ensures l[i] == r[i] {
      if i < |ss| {
        assert (ss + [s])[i] == ss[i];
      }
    }
  }

  /** Reads n strings from the front of vals, one readUtf at a time; gives the
      strings read and what is left, or None when a read fails. */
  function TakeUtfs(vals: seq<Value>, n: nat): Option<(seq<string>, seq<Value>)>
  {
    if n == 0 then Some(([], vals))
    else match TakeUtfs(vals, n - 1)
      case None => None
      case Some((ss, rest)) =>
        if rest != [] && rest[0].UtfVal? then Some((ss + [rest[0].s], rest[1..])) else None
  }

  /** Reading back as many strings as were written gives exactly those strings
      and leaves whatever followed them. */
  lemma {:induction false} TakeUtfsOfUtfs(ss: seq<string>, rest: seq<Value>)
    ensures TakeUtfs(Utfs(ss) + rest, |ss|) == Some((ss, rest))
    decreases |ss|
  {
    if ss == [] {
      assert Utfs(ss) + rest == rest;
    } else {
      var init, last := ss[..|ss| - 1], ss[|ss| - 1];
      assert ss == init + [last];
      assert Utfs(ss) == Utfs(init) + [UtfVal(last)];
      assert Utfs(ss) + rest == Utfs(init) + ([UtfVal(last)] + rest);
      TakeUtfsOfUtfs(init, [UtfVal(last)] + rest);
      var tail := [UtfVal(last)] + rest;
      assert TakeUtfs(Utfs(ss) + rest, |ss| - 1) == Some((init, tail));
      assert tail[0].s == last && tail[1..] == rest;
    }
  }

  /** Conversely, a successful read of n strings consumed exactly their encoding. */
  lemma {:induction false} TakeUtfsInverse(vals: seq<Value>, n: nat, ss: seq<string>, rest: seq<Value>)
    requires TakeUtfs(vals, n) == Some((ss, rest))
    ensures |ss| == n
    ensures vals == Utfs(ss) + rest
  {
    if n > 0 {
      var prev := TakeUtfs(vals, n - 1);
      assert prev.Some?;
      var (ss', rest') := prev.value;
      TakeUtfsInverse(vals, n - 1, ss', rest');
      assert ss == ss' + [rest'[0].s] && rest == rest'[1..];
      assert rest' == [UtfVal(rest'[0].s)] + rest;
      assert Utfs(ss) == Utfs(ss') + [UtfVal(rest'[0].s)];
    }
  }

  /** Once a read of strings fails, reading more fails too. */
  lemma {:induction false} TakeUtfsFailureSticks(vals: seq<Value>, i: nat, n: nat)
    requires i <= n
    requires TakeUtfs(vals, i) == None
    ensures TakeUtfs(vals, n) == None
    decreases n - i
  {
    if i < n {
      TakeUtfsFailureSticks(vals, i + 1, n);
    }
  }

  /** The packet buffer itself. */
  class Buffer {
    var contents: seq<Value>

    constructor (initial: seq<Value>)
      ensures contents == initial
    {
      contents := initial;
    }

    method WriteInt(x: int32)
      modifies this
      ensures contents == old(contents) + [IntVal(x)]
    {
      contents := contents + [IntVal(x)];
    }

    method WriteUtf(s: string)
      modifies this
      ensures contents == old(contents) + [UtfVal(s)]
    {
      contents := contents + [UtfVal(s)];
    }

    /** The loop the encoders share: writeUtf for each string in turn. */
    method WriteUtfs(ss: seq<string>)
      modifies this
      ensures contents == old(contents) + Utfs(ss)
    {
      for i := 0 to |ss|
        invariant contents == old(contents) + Utfs(ss[..i])
      {
        assert ss[..i + 1] == ss[..i] + [ss[i]];
        UtfsSnoc(ss[..i], ss[i]);
        WriteUtf(ss[i]);
      }
      assert ss[..|ss|] == ss;
    }

    method ReadInt() returns (r: Option<int32>)
      modifies this
      ensures old(contents) != [] && old(contents)[0].IntVal? ==>
                r == Some(old(contents)[0].i) && contents == old(contents)[1..]
      ensures !(old(contents) != [] && old(contents)[0].IntVal?) ==>
                r == None && contents == old(contents)
    {
      if contents != [] && contents[0].IntVal? {
        r := Some(contents[0].i);
        contents := contents[1..];
      } else {
        r := None;
      }
    }

    method ReadUtf() returns (r: Option<string>)
      modifies this
      ensures old(contents) != [] && old(contents)[0].UtfVal? ==>
                r == Some(old(contents)[0].s) && contents == old(contents)[1..]
      ensures !(old(contents) != [] && old(contents)[0].UtfVal?) ==>
                r == None && contents == old(contents)
    {
      if contents != [] && contents[0].UtfVal? {
        r := Some(contents[0].s);
        contents := contents[1..];
      } else {
        r := None;
      }
    }
  }
}
