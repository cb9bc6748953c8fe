/** The path sanitiser of ItemCopy: a fixed, ordered table of literal
    substitutions that turns a user-chosen path step into a name that is safe
    as a file name, and the reverse rewriting that recovers the step. */
module PathSanitiser {

  /** One row of the substitution table: a character and the token that
      stands for it in a sanitised name. */
  datatype Substitution = Substitution(unsanitised: string, sanitised: string)

  /** The marker that begins every token. Its own row comes first, so that a
      marker already in the input cannot be mistaken for the start of a token. */
  const Marker: char := '§'

  const Substitutions: seq<Substitution> := [
    Substitution("§", "§SECTION"),
    Substitution("/", "§SLASH"),
    Substitution("\\", "§BACKSLASH"),
    Substitution(".", "§DOT"),
    Substitution(":", "§COLON"),
    Substitution("*", "§ASTERISK"),
    Substitution("\"", "§QUOTE"),
    Substitution("|", "§LINE"),
    Substitution("<", "§LEFTPOINTY"),
    Substitution(">", "§RIGHTPOINTY"),
    Substitution("?", "§QUESTION")
  ]

  /** The characters a file name may not contain, all of which sanitising removes. */
  const Forbidden: set<char> := {'/', '\\', '.', ':', '*', '"', '|', '<', '>', '?'}

  predicate IsUpper(c: char) { 'A' <= c <= 'Z' }

  function Special(k: nat): char
    requires k < |Substitutions|
  {
    Substitutions[k].unsanitised[0]
  }

  function Token(k: nat): string
    requires k < |Substitutions|
  {
    Substitutions[k].sanitised
  }

  // ---------------------------------------------------------------------
  // Java's String.replace
  // ---------------------------------------------------------------------

  /** String.replace(target, replacement) for a non-empty target: the
      occurrences of target are found from left to right, without overlap,
      and each is replaced. */
  function Replace(s: string, target: string, replacement: string): string
    requires target != []
    decreases |s|
  {
    if s == [] then []
    else if target <= s then replacement + Replace(s[|target|..], target, replacement)
    else [s[0]] + Replace(s[1..], target, replacement)
  }

  lemma ReplaceCharHead(s: string, x: char, replacement: string)
    requires s != []
    ensures Replace(s, [x], replacement)
         == (if s[0] == x then replacement else [s[0]]) + Replace(s[1..], [x], replacement)
  {
    assert [x] <= s <==> s[0] == x;
  }

  /** Replacing a one-character target works character by character, so it
      distributes over concatenation. */
  lemma {:induction false} ReplaceCharAppend(a: string, b: string, x: char, replacement: string)
    ensures Replace(a + b, [x], replacement) == Replace(a, [x], replacement) + Replace(b, [x], replacement)
    decreases |a|
  {
    if a == [] {
      assert a + b == b;
    } else {
      assert (a + b)[0] == a[0];
      assert (a + b)[1..] == a[1..] + b;
      ReplaceCharHead(a + b, x, replacement);
      ReplaceCharHead(a, x, replacement);
      ReplaceCharAppend(a[1..], b, x, replacement);
    }
  }

  /** A prefix that does not contain the first character of the target is
      copied through unchanged. */
  lemma {:induction false} ReplaceSkip(u: string, rest: string, target: string, replacement: string)
    requires target != []
    requires target[0] !in u
    ensures Replace(u + rest, target, replacement) == u + Replace(rest, target, replacement)
    decreases |u|
  {
    if u == [] {
      assert u + rest == rest;
    } else {
      assert (u + rest)[0] == u[0] != target[0];
      assert (u + rest)[1..] == u[1..] + rest;
      ReplaceSkip(u[1..], rest, target, replacement);
    }
  }

  lemma ReplaceAbsent(u: string, target: string, replacement: string)
    requires target != []
    requires target[0] !in u
    ensures Replace(u, target, replacement) == u
  {
    ReplaceSkip(u, [], target, replacement);
    assert u + [] == u;
  }

  lemma ReplaceAtMatch(rest: string, target: string, replacement: string)
    requires target != []
    ensures Replace(target + rest, target, replacement) == replacement + Replace(rest, target, replacement)
  {
    assert target <= target + rest;
    assert (target + rest)[|target|..] == rest;
  }

  // ---------------------------------------------------------------------
  // Facts about the table
  // ---------------------------------------------------------------------

  /** Every row replaces a single character, the marker's row first. */
  lemma TableRows()
    ensures |Substitutions| == 11
    ensures forall k | 0 <= k < |Substitutions| :: Substitutions[k].unsanitised == [Special(k)]
    ensures Special(0) == Marker
  {
  }

  /** Every token is the marker followed by at least three capital letters. */
  lemma TableTokens()
    ensures forall k | 0 <= k < |Substitutions| :: |Token(k)| >= 4 && Token(k)[0] == Marker
    ensures forall k, i | 0 <= k < |Substitutions| && 1 <= i < |Token(k)| :: IsUpper(Token(k)[i])
  {
  }

  /** The rows after the marker's are exactly the forbidden characters. */
  lemma TableForbidden()
    ensures forall k | 1 <= k < |Substitutions| :: Special(k) in Forbidden
    ensures forall c | c in Forbidden :: exists k | 1 <= k < |Substitutions| :: Special(k) == c
  {
    assert Special(1) == '/' && Special(2) == '\\' && Special(3) == '.' && Special(4) == ':';
    assert Special(5) == '*' && Special(6) == '"' && Special(7) == '|' && Special(8) == '<';
    assert Special(9) == '>' && Special(10) == '?';
  }

  lemma SpecialsDistinct()
    ensures forall j, k | 0 <= j < |Substitutions| && 0 <= k < |Substitutions| && j != k :: Special(j) != Special(k)
  {
  }

  lemma TokenKeysDistinct()
    ensures forall j, k | 0 <= j < |Substitutions| && 0 <= k < |Substitutions| && j != k ::
      Token(j)[1] != Token(k)[1] || Token(j)[2] != Token(k)[2] || Token(j)[3] != Token(k)[3]
  {
  }

  /** No token is a prefix of another, so a marker in a sanitised name can
      begin at most one token. */
  lemma TokensPrefixFree()
    ensures forall j, k | 0 <= j < |Substitutions| && 0 <= k < |Substitutions| && j != k :: !(Token(j) <= Token(k))
  {
    TableTokens();
    TokenKeysDistinct();
    forall j, k | 0 <= j < |Substitutions| && 0 <= k < |Substitutions| && j != k
      ensures !(Token(j) <= Token(k))
    {
    }
  }

  /** Two strings that both begin a third are prefixes one of the other. */
  lemma PrefixesOfOneString(a: string, b: string, x: string)
    ensures a <= x && b <= x ==> a <= b || b <= a
  {
    if a <= x && b <= x {
      if |a| <= |b| {
        assert a == b[..|a|];
      } else {
        assert b == a[..|b|];
      }
    }
  }

  /** Two different tokens cannot both begin the same string. */
  lemma TokensDoNotShareStart(j: nat, k: nat, x: string)
    requires j < |Substitutions| && k < |Substitutions|
    requires Token(j) <= x && Token(k) <= x
    ensures j == k
  {
    TokensPrefixFree();
    PrefixesOfOneString(Token(j), Token(k), x);
  }

  lemma NotTokenStart(j: nat, k: nat, x: string)
    requires j < |Substitutions| && k < |Substitutions| && j != k
    requires Token(j) <= x
    ensures !(Token(k) <= x)
  {
    TokensPrefixFree();
    PrefixesOfOneString(Token(j), Token(k), x);
  }

  /** The characters of a token are the marker followed by capital letters,
      so no character of the table other than the marker occurs in one. */
  lemma TokenChars(j: nat)
    requires j < |Substitutions|
    ensures |Token(j)| >= 4 && Token(j)[0] == Marker
    ensures forall i | 1 <= i < |Token(j)| :: IsUpper(Token(j)[i])
    ensures Substitutions[j].unsanitised == [Special(j)]
  {
    TableRows();
    TableTokens();
  }

  lemma SpecialForbidden(k: nat)
    requires 1 <= k < |Substitutions|
    ensures Special(k) in Forbidden
  {
  }

  lemma SpecialNotInToken(j: nat, k: nat)
    requires j < |Substitutions| && 1 <= k < |Substitutions|
    ensures Special(k) !in Token(j)
    ensures Special(k) != Marker
  {
    SpecialForbidden(k);
    TokenChars(j);
    var x := Special(k);
    assert !IsUpper(x) && x != Marker;
    forall i | 0 <= i < |Token(j)| ensures Token(j)[i] != x {
      if i > 0 {
        assert IsUpper(Token(j)[i]);
      }
    }
  }

  lemma MarkerIsRowZero()
    ensures |Substitutions| == 11
    ensures IndexOfSpecial(Marker) == 0
    ensures Marker !in Forbidden
  {
    TableRows();
  }

  lemma ForbiddenHaveRows(c: char)
    requires c in Forbidden
    ensures 1 <= IndexOfSpecial(c) < |Substitutions|
  {
    TableForbidden();
  }

  /** The row whose character is c, or |Substitutions| if c has no row. */
  function IndexOfSpecial(c: char): (j: nat)
    ensures j <= |Substitutions|
    ensures forall k | 0 <= k < |Substitutions| :: Special(k) == c <==> j == k
  {
    IndexFrom(c, 0)
  }

  function IndexFrom(c: char, from: nat): (j: nat)
    requires from <= |Substitutions|
    ensures from <= j <= |Substitutions|
    ensures forall k | from <= k < |Substitutions| :: Special(k) == c <==> j == k
    decreases |Substitutions| - from
  {
    SpecialsDistinct();
    if from == |Substitutions| then from
    else if Special(from) == c then from
    else IndexFrom(c, from + 1)
  }

  // ---------------------------------------------------------------------
  // Sanitising
  // ---------------------------------------------------------------------

  /** What a character has become once the first k rows of the table have
      been applied: the token of its row if that row is among them. */
  function EscapeChar(c: char, k: nat): string
    requires k <= |Substitutions|
  {
    var j := IndexOfSpecial(c);
    if j < k then Token(j) else [c]
  }

  /** The string once the first k rows of the table have been applied,
      described character by character. */
  function Escaped(s: string, k: nat): string
    requires k <= |Substitutions|
  {
    if s == [] then [] else EscapeChar(s[0], k) + Escaped(s[1..], k)
  }

  /** The sanitised form of a step: every character of the table replaced by
      its token, every other character kept. */
  function Sanitised(s: string): string
  {
    Escaped(s, |Substitutions|)
  }

  lemma {:induction false} EscapedNone(s: string)
    ensures Escaped(s, 0) == s
  {
    if s != [] {
      EscapedNone(s[1..]);
      assert s == [s[0]] + s[1..];
    }
  }

  lemma ForwardChar(c: char, k: nat)
    requires k < |Substitutions|
    ensures Replace(EscapeChar(c, k), [Special(k)], Token(k)) == EscapeChar(c, k + 1)
  {
    var x := Special(k);
    var j := IndexOfSpecial(c);
    if j < k {
      SpecialNotInToken(j, k);
      ReplaceAbsent(Token(j), [x], Token(k));
    } else if j == k {
      ReplaceAtMatch([], [x], Token(k));
      assert [x] + [] == [x];
      assert Token(k) + [] == Token(k);
    } else {
      ReplaceAbsent([c], [x], Token(k));
    }
  }

  /** Applying row k of the table to the string in which rows 0..k-1 have
      been applied yields the string in which rows 0..k have been applied. */
  lemma {:induction false} ForwardStep(s: string, k: nat)
    requires k < |Substitutions|
    ensures Replace(Escaped(s, k), Substitutions[k].unsanitised, Token(k)) == Escaped(s, k + 1)
  {
    TokenChars(k);
    if s != [] {
      ReplaceCharAppend(EscapeChar(s[0], k), Escaped(s[1..], k), Special(k), Token(k));
      ForwardStep(s[1..], k);
      ForwardChar(s[0], k);
    }
  }

  lemma BackwardChar(c: char, k: nat, rest: string)
    requires k < |Substitutions|
    ensures Replace(EscapeChar(c, k + 1) + rest, Token(k), Substitutions[k].unsanitised)
         == EscapeChar(c, k) + Replace(rest, Token(k), Substitutions[k].unsanitised)
  {
    TokenChars(k);
    MarkerIsRowZero();
    var u := Substitutions[k].unsanitised;
    var j := IndexOfSpecial(c);
    var e := EscapeChar(c, k + 1);
    if j == k {
      ReplaceAtMatch(rest, Token(k), u);
    } else if j < k {
      assert e == Token(j);
      SkipEarlierToken(j, k, rest);
    } else {
      assert c != Marker;
      ReplaceSkip([c], rest, Token(k), u);
    }
  }

  /** The token of an earlier row is left alone when a later row is undone. */
  lemma SkipEarlierToken(j: nat, k: nat, rest: string)
    requires j < k < |Substitutions|
    ensures Replace(Token(j) + rest, Token(k), Substitutions[k].unsanitised)
         == Token(j) + Replace(rest, Token(k), Substitutions[k].unsanitised)
  {
    var t, u := Token(j), Substitutions[k].unsanitised;
    TokenChars(j);
    TokenChars(k);
    assert t <= t + rest;
    NotTokenStart(j, k, t + rest);
    assert (t + rest)[1..] == t[1..] + rest;
    assert Marker !in t[1..];
    ReplaceSkip(t[1..], rest, Token(k), u);
    assert t == [t[0]] + t[1..];
  }

  /** Undoing row k in the string in which rows 0..k have been applied
      yields the string in which only rows 0..k-1 have been applied. */
  lemma {:induction false} BackwardStep(s: string, k: nat)
    requires k < |Substitutions|
    ensures Replace(Escaped(s, k + 1), Token(k), Substitutions[k].unsanitised) == Escaped(s, k)
  {
    if s != [] {
      BackwardStep(s[1..], k);
      BackwardChar(s[0], k, Escaped(s[1..], k + 1));
    }
  }

  // ---------------------------------------------------------------------
  // Desanitising
  // ---------------------------------------------------------------------

  /** The string once rows |Substitutions|-1 down to k have been undone, in
      that order. */
  function UndoFrom(s: string, k: nat): string
    requires k <= |Substitutions|
    decreases |Substitutions| - k
  {
    if k == |Substitutions| then s
    else Replace(UndoFrom(s, k + 1), Token(k), Substitutions[k].unsanitised)
  }

  /** The desanitised form of a name: every row of the table undone, last row first. */
  function Desanitised(s: string): string
  {
    UndoFrom(s, 0)
  }

  lemma {:induction false} UndoEscaped(s: string, k: nat)
    requires k <= |Substitutions|
    ensures UndoFrom(Sanitised(s), k) == Escaped(s, k)
    decreases |Substitutions| - k
  {
    if k < |Substitutions| {
      UndoEscaped(s, k + 1);
      BackwardStep(s, k);
    }
  }

  /** Desanitising undoes sanitising, for every string. */
  lemma RoundTrip(s: string)
    ensures Desanitised(Sanitised(s)) == s
  {
    UndoEscaped(s, 0);
    EscapedNone(s);
  }

  // ---------------------------------------------------------------------
  // What a sanitised name looks like
  // ---------------------------------------------------------------------

  lemma EscapeCharAllowed(c: char)
    ensures forall f | f in Forbidden :: f !in EscapeChar(c, |Substitutions|)
  {
    var j := IndexOfSpecial(c);
    if j < |Substitutions| {
      forall f | f in Forbidden ensures f !in Token(j) {
        ForbiddenNotInToken(f, j);
      }
    } else if c in Forbidden {
      ForbiddenHaveRows(c);
    }
  }

  /** No token holds a character a file name may not contain. */
  lemma ForbiddenNotInToken(f: char, j: nat)
    requires f in Forbidden && j < |Substitutions|
    ensures f !in Token(j)
  {
    TokenChars(j);
    assert !IsUpper(f) && f != Marker;
    forall i | 0 <= i < |Token(j)| ensures Token(j)[i] != f {
      if i > 0 {
        assert IsUpper(Token(j)[i]);
      }
    }
  }

  /** A sanitised name contains none of the characters a file name may not contain. */
  lemma {:induction false} SanitisedHasNoForbidden(s: string)
    ensures forall c | c in Forbidden :: c !in Sanitised(s)
  {
    if s != [] {
      SanitisedHasNoForbidden(s[1..]);
      EscapeCharAllowed(s[0]);
      assert Sanitised(s) == EscapeChar(s[0], |Substitutions|) + Sanitised(s[1..]);
    }
  }

  /** Every marker in a sanitised name begins exactly one token. */
  lemma {:induction false} MarkerBeginsToken(s: string, i: nat)
    requires i < |Sanitised(s)| && Sanitised(s)[i] == Marker
    ensures exists k | 0 <= k < |Substitutions| :: Token(k) <= Sanitised(s)[i..]
    ensures forall j, k | 0 <= j < |Substitutions| && 0 <= k < |Substitutions| ::
      Token(j) <= Sanitised(s)[i..] && Token(k) <= Sanitised(s)[i..] ==> j == k
  {
    var x := Sanitised(s);
    forall j, k | 0 <= j < |Substitutions| && 0 <= k < |Substitutions| && Token(j) <= x[i..] && Token(k) <= x[i..]
      ensures j == k
    {
      TokensDoNotShareStart(j, k, x[i..]);
    }
    var e := EscapeChar(s[0], |Substitutions|);
    var rest := Sanitised(s[1..]);
    assert x == e + rest;
    if i < |e| {
      var j := IndexOfSpecial(s[0]);
      MarkerIsRowZero();
      if j < |Substitutions| {
        TokenChars(j);
        assert i == 0;
        assert x[i..] == Token(j) + rest;
      }
    } else {
      assert x[i..] == rest[i - |e|..];
      MarkerBeginsToken(s[1..], i - |e|);
    }
  }

  /** A step without any character of the table is its own sanitised form. */
  lemma {:induction false} SanitisePlain(s: string)
    requires forall i | 0 <= i < |s| :: s[i] != Marker && s[i] !in Forbidden
    ensures Sanitised(s) == s
  {
    if s != [] {
      SanitisePlain(s[1..]);
      PlainChar(s[0]);
      assert s == [s[0]] + s[1..];
    }
  }

  /** A character outside the table has no row. */
  lemma PlainChar(c: char)
    requires c != Marker && c !in Forbidden
    ensures IndexOfSpecial(c) == |Substitutions|
  {
    MarkerIsRowZero();
    var j := IndexOfSpecial(c);
    if 1 <= j < |Substitutions| {
      SpecialForbidden(j);
    }
  }

  lemma {:induction false} UndoPlain(s: string, k: nat)
    requires k <= |Substitutions|
    requires Marker !in s
    ensures UndoFrom(s, k) == s
    decreases |Substitutions| - k
  {
    if k < |Substitutions| {
      TokenChars(k);
      UndoPlain(s, k + 1);
      ReplaceAbsent(s, Token(k), Substitutions[k].unsanitised);
    }
  }

  /** A name without a marker is its own desanitised form. */
  lemma DesanitisePlain(s: string)
    requires Marker !in s
    ensures Desanitised(s) == s
  {
    UndoPlain(s, 0);
  }

  // ---------------------------------------------------------------------
  // The String overloads, as the loops over the table they are
  // ---------------------------------------------------------------------

  /** sanitise(String): applies the rows of the table in order, each to the
      whole running string. */
  method Sanitise(toBeSanitised: string) returns (result: string)
    ensures result == Sanitised(toBeSanitised)
  {
    result := toBeSanitised;
    EscapedNone(toBeSanitised);
    for i := 0 to |Substitutions|
      invariant result == Escaped(toBeSanitised, i)
    {
      TokenChars(i);
      var sub := Substitutions[i];
      ForwardStep(toBeSanitised, i);
      result := Replace(result, sub.unsanitised, sub.sanitised);
    }
  }

  /** desanitise(String): undoes the rows of the table, last row first. */
  method Desanitise(toBeDesanitised: string) returns (result: string)
    ensures result == Desanitised(toBeDesanitised)
  {
    result := toBeDesanitised;
    var i := |Substitutions| - 1;
    while i >= 0
      invariant -1 <= i < |Substitutions|
      invariant result == UndoFrom(toBeDesanitised, i + 1)
      decreases i
    {
      TokenChars(i);
      result := Replace(result, Substitutions[i].sanitised, Substitutions[i].unsanitised);
      i := i - 1;
    }
  }

  // ---------------------------------------------------------------------
  // The List overloads: element-wise maps
  // ---------------------------------------------------------------------

  function SanitisedAll(steps: seq<string>): (r: seq<string>)
    ensures |r| == |steps|
    ensures forall i | 0 <= i < |steps| :: r[i] == Sanitised(steps[i])
  {
    if steps == [] then [] else [Sanitised(steps[0])] + SanitisedAll(steps[1..])
  }

  function DesanitisedAll(names: seq<string>): (r: seq<string>)
    ensures |r| == |names|
    ensures forall i | 0 <= i < |names| :: r[i] == Desanitised(names[i])
  {
    if names == [] then [] else [Desanitised(names[0])] + DesanitisedAll(names[1..])
  }

  lemma RoundTripAll(steps: seq<string>)
    ensures DesanitisedAll(SanitisedAll(steps)) == steps
  {
    forall i | 0 <= i < |steps| ensures DesanitisedAll(SanitisedAll(steps))[i] == steps[i] {
      RoundTrip(steps[i]);
    }
  }
}
