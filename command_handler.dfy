/** The string handling behind the mod's commands: splitting the copy-path
    argument into steps, dropping the step still being typed when suggestions
    are computed, and composing the suggestions offered back to the player. */
module CommandHandler {
  import opened Wrappers
  import opened CopyPaths

  /** The characters the regular expression class \s matches. */
  predicate IsWhitespace(c: char) {
    c == ' ' || c == '\t' || c == '\n' || c == '\U{B}' || c == '\U{C}' || c == '\r'
  }

  /** The characters String.trim removes from both ends: every code up to the space. */
  predicate IsTrimmable(c: char) {
    c <= ' '
  }

  /** Every whitespace character is also trimmable. */
  lemma WhitespaceIsTrimmable(c: char)
    requires IsWhitespace(c)
    ensures IsTrimmable(c)
  {
  }

  function TrimStart(s: string): (r: string)
    ensures |r| <= |s| && r == s[|s| - |r|..]
    ensures r != [] ==> !IsTrimmable(r[0])
    decreases |s|
  {
    if s != [] && IsTrimmable(s[0]) then
      var r := TrimStart(s[1..]);
      assert s[1..][|s[1..]| - |r|..] == s[|s| - |r|..];
      r
    else s
  }

  function TrimEnd(s: string): (r: string)
    ensures |r| <= |s| && r == s[..|r|]
    ensures r != [] ==> !IsTrimmable(r[|r| - 1])
    decreases |s|
  {
    if s != [] && IsTrimmable(s[|s| - 1]) then
      var r := TrimEnd(s[..|s| - 1]);
      assert s[..|s| - 1][..|r|] == s[..|r|];
      r
    else s
  }

  /** TrimStart removes only characters at or below a space. */
  lemma {:induction false} TrimStartRemovesTrimmable(s: string)
    ensures forall i | 0 <= i < |s| - |TrimStart(s)| :: IsTrimmable(s[i])
    decreases |s|
  {
    if s != [] && IsTrimmable(s[0]) {
      TrimStartRemovesTrimmable(s[1..]);
      assert forall i | 1 <= i < |s| - |TrimStart(s)| :: s[i] == s[1..][i - 1];
    }
  }

  /** TrimEnd removes only characters at or below a space. */
  lemma {:induction false} TrimEndRemovesTrimmable(s: string)
    ensures forall i | |TrimEnd(s)| <= i < |s| :: IsTrimmable(s[i])
    decreases |s|
  {
    if s != [] && IsTrimmable(s[|s| - 1]) {
      var init := s[..|s| - 1];
      TrimEndRemovesTrimmable(init);
      assert forall i | |TrimEnd(s)| <= i < |init| :: s[i] == init[i];
    }
  }

  /** String.trim. */
  function Trim(s: string): (r: string)
    ensures r != [] ==> !IsTrimmable(r[0]) && !IsTrimmable(r[|r| - 1])
  {
    var t := TrimStart(s);
    var r := TrimEnd(t);
    assert r != [] ==> r[0] == t[0];
    r
  }

  lemma {:induction false} TrimStartEmpty(s: string)
    ensures TrimStart(s) == [] <==> forall i | 0 <= i < |s| :: IsTrimmable(s[i])
    decreases |s|
  {
    if s != [] && IsTrimmable(s[0]) {
      TrimStartEmpty(s[1..]);
      assert forall i | 1 <= i < |s| :: s[i] == s[1..][i - 1];
    }
  }

  lemma {:induction false} TrimEndEmpty(s: string)
    ensures TrimEnd(s) == [] <==> forall i | 0 <= i < |s| :: IsTrimmable(s[i])
    decreases |s|
  {
    if s != [] && IsTrimmable(s[|s| - 1]) {
      var init := s[..|s| - 1];
      TrimEndEmpty(init);
      assert forall i | 0 <= i < |init| :: s[i] == init[i];
    }
  }

  /** Trimming empties the text exactly when every character of it is trimmable. */
  lemma TrimEmpty(s: string)
    ensures Trim(s) == [] <==> forall i | 0 <= i < |s| :: IsTrimmable(s[i])
  {
    var t := TrimStart(s);
    TrimStartEmpty(s);
    TrimEndEmpty(t);
    if Trim(s) == [] {
      assert t == [];
    }
  }

  /** The text cut at every whitespace character: the fields between the
      separators, empty ones included. */
  function Fields(s: string): (r: seq<string>)
    ensures |r| >= 1
    decreases |s|
  {
    if s == [] then [[]]
    else if IsWhitespace(s[0]) then [[]] + Fields(s[1..])
    else var f := Fields(s[1..]); [[s[0]] + f[0]] + f[1..]
  }

  function NonEmpty(fields: seq<string>): (r: seq<string>)
    ensures forall i | 0 <= i < |r| :: r[i] != [] && r[i] in fields
  {
    if fields == [] then []
    else if fields[0] == [] then NonEmpty(fields[1..])
    else [fields[0]] + NonEmpty(fields[1..])
  }

  lemma {:induction false} FieldsHaveNoWhitespace(s: string)
    ensures forall i, j | 0 <= i < |Fields(s)| && 0 <= j < |Fields(s)[i]| :: !IsWhitespace(Fields(s)[i][j])
    decreases |s|
  {
    if s != [] {
      FieldsHaveNoWhitespace(s[1..]);
    }
  }

  /** splitArguments: the trimmed text cut into its runs of non-whitespace
      characters. A run of whitespace is one separator, and a trimmed text
      neither starts nor ends with whitespace, so the runs are exactly the
      non-empty fields. */
  function SplitArguments(args: string): (r: seq<string>)
    ensures forall i | 0 <= i < |r| :: r[i] != []
    ensures forall i, j | 0 <= i < |r| && 0 <= j < |r[i]| :: !IsWhitespace(r[i][j])
    ensures r == [] <==> forall i | 0 <= i < |args| :: IsTrimmable(args[i])
  {
    var trimmed := Trim(args);
    TrimEmpty(args);
    if trimmed == [] then []
    else
      FieldsHaveNoWhitespace(trimmed);
      FirstFieldNonEmpty(trimmed);
      NonEmpty(Fields(trimmed))
  }

  /** A text that starts with a character outside \s has a first token. */
  lemma FirstFieldNonEmpty(s: string)
    requires s != [] && !IsWhitespace(s[0])
    ensures NonEmpty(Fields(s)) != []
  {
  }

  // ---------------------------------------------------------------------
  // An independent reading of splitting: whitespace runs collapsed
  // ---------------------------------------------------------------------

  /** The text with its leading whitespace removed. */
  function DropWhitespace(s: string): (r: string)
    ensures |r| <= |s| && r == s[|s| - |r|..]
    ensures s != [] && IsWhitespace(s[0]) ==> |r| < |s|
    ensures forall i | 0 <= i < |s| - |r| :: IsWhitespace(s[i])
    ensures r != [] ==> !IsWhitespace(r[0])
    decreases |s|
  {
    if s != [] && IsWhitespace(s[0]) then
      var r := DropWhitespace(s[1..]);
      assert s[1..][|s[1..]| - |r|..] == s[|s| - |r|..];
      assert forall i | 1 <= i < |s| - |r| :: s[i] == s[1..][i - 1];
      r
    else s
  }

  /** The text with every maximal run of whitespace replaced by one space. */
  function Collapse(s: string): string
    decreases |s|
  {
    if s == [] then []
    else if IsWhitespace(s[0]) then " " + Collapse(DropWhitespace(s))
    else [s[0]] + Collapse(s[1..])
  }

  /** A whitespace character at the front is a separator before an empty field. */
  lemma NonEmptyFieldsSkip(s: string)
    requires s != [] && IsWhitespace(s[0])
    ensures NonEmpty(Fields(s)) == NonEmpty(Fields(s[1..]))
  {
  }

  lemma {:induction false} NonEmptyFieldsDrop(s: string)
    ensures NonEmpty(Fields(s)) == NonEmpty(Fields(DropWhitespace(s)))
    decreases |s|
  {
    if s != [] && IsWhitespace(s[0]) {
      NonEmptyFieldsSkip(s);
      NonEmptyFieldsDrop(s[1..]);
    }
  }

  lemma JoinExtendsHead(c: char, x: string, rest: seq<string>)
    ensures JoinWithSpaces([[c] + x] + rest) == [c] + JoinWithSpaces([x] + rest)
  {
    assert ([[c] + x] + rest)[1..] == rest;
    assert ([x] + rest)[1..] == rest;
  }

  /** A character outside \s followed by another one extends the first token. */
  lemma CollapseWordStep(t: string)
    requires |t| > 1 && !IsWhitespace(t[0]) && !IsWhitespace(t[1])
    requires JoinWithSpaces(NonEmpty(Fields(t[1..]))) == Collapse(t[1..])
    ensures JoinWithSpaces(NonEmpty(Fields(t))) == Collapse(t)
  {
    var c, f := t[0], Fields(t[1..]);
    assert f[0] != [];
    assert Fields(t) == [[c] + f[0]] + f[1..];
    assert NonEmpty(Fields(t)) == [[c] + f[0]] + NonEmpty(f[1..]);
    assert NonEmpty(f) == [f[0]] + NonEmpty(f[1..]);
    JoinExtendsHead(c, f[0], NonEmpty(f[1..]));
  }

  lemma FieldsWordThenSpace(t: string)
    requires |t| > 1 && !IsWhitespace(t[0]) && IsWhitespace(t[1])
    ensures NonEmpty(Fields(t)) == [[t[0]]] + NonEmpty(Fields(t[2..]))
  {
    var u := t[1..];
    assert u[1..] == t[2..];
    assert Fields(u) == [[]] + Fields(u[1..]);
    assert [t[0]] + Fields(u)[0] == [t[0]] && Fields(u)[1..] == Fields(u[1..]);
    assert Fields(t) == [[t[0]]] + Fields(u[1..]);
  }

  lemma JoinCons(w: string, rest: seq<string>)
    requires rest != []
    ensures JoinWithSpaces([w] + rest) == w + " " + JoinWithSpaces(rest)
  {
    assert ([w] + rest)[1..] == rest;
  }

  /** A character outside \s followed by a whitespace run ends the first
      token; the run becomes the one space before the next token. */
  lemma CollapseSpaceStep(t: string)
    requires |t| > 1 && !IsWhitespace(t[0]) && IsWhitespace(t[1])
    requires DropWhitespace(t[1..]) != []
    requires JoinWithSpaces(NonEmpty(Fields(DropWhitespace(t[1..])))) == Collapse(DropWhitespace(t[1..]))
    ensures JoinWithSpaces(NonEmpty(Fields(t))) == Collapse(t)
  {
    var u := t[1..];
    var v := DropWhitespace(u);
    var rest := NonEmpty(Fields(v));
    calc {
      NonEmpty(Fields(t));
      { FieldsWordThenSpace(t); assert u[1..] == t[2..]; }
      [[t[0]]] + NonEmpty(Fields(u[1..]));
      { NonEmptyFieldsSkip(u); NonEmptyFieldsDrop(u); }
      [[t[0]]] + rest;
    }
    FirstFieldNonEmpty(v);
    JoinCons([t[0]], rest);
    calc {
      Collapse(t);
      [t[0]] + Collapse(u);
      [t[0]] + (" " + Collapse(v));
      { Associative([t[0]], " ", Collapse(v)); }
      [t[0]] + " " + Collapse(v);
    }
  }

  /** Between a first and a last character outside \s, the tokens joined by
      single spaces are the text with its whitespace runs collapsed. */
  lemma {:induction false} JoinFieldsCollapse(t: string)
    requires t != [] && !IsWhitespace(t[0]) && !IsWhitespace(t[|t| - 1])
    ensures JoinWithSpaces(NonEmpty(Fields(t))) == Collapse(t)
    decreases |t|
  {
    var u := t[1..];
    if u == [] {
      assert Fields(t) == [[t[0]] + Fields(u)[0]] + Fields(u)[1..];
    } else if !IsWhitespace(u[0]) {
      JoinFieldsCollapse(u);
      CollapseWordStep(t);
    } else {
      var v := DropWhitespace(u);
      assert u[|u| - 1] == t[|t| - 1];
      assert v != [] && v[|v| - 1] == t[|t| - 1];
      JoinFieldsCollapse(v);
      CollapseSpaceStep(t);
    }
  }

  /** splitArguments followed by joining with single spaces: the trimmed text
      with every whitespace run collapsed to one space. Characters that trim
      removes but \s does not match stay inside the tokens. */
  lemma SplitCollapse(s: string)
    ensures JoinWithSpaces(SplitArguments(s)) == Collapse(Trim(s))
  {
    var t := Trim(s);
    if t != [] {
      if IsWhitespace(t[0]) { WhitespaceIsTrimmable(t[0]); }
      if IsWhitespace(t[|t| - 1]) { WhitespaceIsTrimmable(t[|t| - 1]); }
      JoinFieldsCollapse(t);
    }
  }

  // ---------------------------------------------------------------------
  // Joining steps back into argument text
  // ---------------------------------------------------------------------

  /** String.join(" ", steps). */
  function JoinWithSpaces(steps: seq<string>): string
  {
    if steps == [] then []
    else if |steps| == 1 then steps[0]
    else steps[0] + " " + JoinWithSpaces(steps[1..])
  }

  /** A step a player can type: non-empty, and nothing in it that splitting or
      trimming would remove. */
  predicate PlainStep(step: string) {
    step != [] && forall j | 0 <= j < |step| :: !IsTrimmable(step[j])
  }

  lemma {:induction false} FieldsOfPlain(step: string)
    requires forall j | 0 <= j < |step| :: !IsTrimmable(step[j])
    ensures Fields(step) == [step]
    decreases |step|
  {
    if step != [] {
      FieldsOfPlain(step[1..]);
      assert [step[0]] + step[1..] == step;
    }
  }

  /** Cutting at a space that is known to be a separator. */
  lemma {:induction false} FieldsAroundSpace(a: string, b: string)
    ensures Fields(a + " " + b) == Fields(a) + Fields(b)
    decreases |a|
  {
    if a == [] {
      assert a + " " + b == [' '] + b;
      assert ([' '] + b)[1..] == b;
    } else {
      FieldsAroundSpace(a[1..], b);
      FieldsConsStep(a, b);
    }
  }

  /** One character in front of a text cut around a separating space. */
  lemma FieldsConsStep(a: string, b: string)
    requires a != []
    requires Fields(a[1..] + " " + b) == Fields(a[1..]) + Fields(b)
    ensures Fields(a + " " + b) == Fields(a) + Fields(b)
  {
    assert a + " " + b == [a[0]] + (a[1..] + " " + b);
    assert a == [a[0]] + a[1..];
    FieldsCons(a[0], a[1..], a[1..] + " " + b, Fields(b));
  }

  lemma FieldsUnfold(c: char, y: string)
    ensures IsWhitespace(c) ==> Fields([c] + y) == [[]] + Fields(y)
    ensures !IsWhitespace(c) ==> Fields([c] + y) == [[c] + Fields(y)[0]] + Fields(y)[1..]
  {
    assert ([c] + y)[0] == c && ([c] + y)[1..] == y;
  }

  lemma Associative<T>(a: seq<T>, b: seq<T>, c: seq<T>)
    ensures a + (b + c) == (a + b) + c
  {
  }

  lemma AppendAfterFirst<T>(a: seq<T>, b: seq<T>)
    requires a != []
    ensures (a + b)[0] == a[0] && (a + b)[1..] == a[1..] + b
  {
  }

  /** A character put in front of two texts whose fields agree up to a tail
      changes their first fields alike. */
  lemma FieldsCons(c: char, u: string, y: string, tail: seq<string>)
    requires Fields(y) == Fields(u) + tail
    ensures Fields([c] + y) == Fields([c] + u) + tail
  {
    var fu := Fields(u);
    FieldsUnfold(c, u);
    FieldsUnfold(c, y);
    if IsWhitespace(c) {
      Associative([[]], fu, tail);
    } else {
      var w := [c] + fu[0];
      AppendAfterFirst(fu, tail);
      calc {
        Fields([c] + y);
        [w] + (fu[1..] + tail);
        { Associative([w], fu[1..], tail); }
        ([w] + fu[1..]) + tail;
        Fields([c] + u) + tail;
      }
    }
  }

  lemma {:induction false} NonEmptyAppend(x: seq<string>, y: seq<string>)
    ensures NonEmpty(x + y) == NonEmpty(x) + NonEmpty(y)
    decreases |x|
  {
    if x == [] {
      assert x + y == y;
    } else {
      assert (x + y)[0] == x[0];
      assert (x + y)[1..] == x[1..] + y;
      NonEmptyAppend(x[1..], y);
    }
  }

  lemma {:induction false} NonEmptyOfJoin(steps: seq<string>)
    requires forall i | 0 <= i < |steps| :: PlainStep(steps[i])
    ensures NonEmpty(Fields(JoinWithSpaces(steps))) == steps
    decreases |steps|
  {
    if steps == [] {
    } else if |steps| == 1 {
      FieldsOfPlain(steps[0]);
    } else {
      var rest := JoinWithSpaces(steps[1..]);
      FieldsOfPlain(steps[0]);
      FieldsAroundSpace(steps[0], rest);
      assert Fields(steps[0] + " " + rest) == [steps[0]] + Fields(rest);
      NonEmptyAppend([steps[0]], Fields(rest));
      NonEmptyOfJoin(steps[1..]);
      assert steps == [steps[0]] + steps[1..];
    }
  }

  lemma {:induction false} JoinEnds(steps: seq<string>)
    requires steps != []
    requires forall i | 0 <= i < |steps| :: PlainStep(steps[i])
    ensures JoinWithSpaces(steps) != []
    ensures !IsTrimmable(JoinWithSpaces(steps)[0])
    ensures !IsTrimmable(JoinWithSpaces(steps)[|JoinWithSpaces(steps)| - 1])
    decreases |steps|
  {
    assert PlainStep(steps[0]);
    if |steps| > 1 {
      JoinEnds(steps[1..]);
    }
  }

  lemma {:induction false} TrimUntrimmed(s: string)
    requires s != [] && !IsTrimmable(s[0]) && !IsTrimmable(s[|s| - 1])
    ensures Trim(s) == s
  {
  }

  /** Splitting steps joined with spaces gives the steps back. */
  lemma SplitJoin(steps: seq<string>)
    requires forall i | 0 <= i < |steps| :: PlainStep(steps[i])
    ensures SplitArguments(JoinWithSpaces(steps)) == steps
  {
    if steps != [] {
      JoinEnds(steps);
      TrimUntrimmed(JoinWithSpaces(steps));
      NonEmptyOfJoin(steps);
    }
  }

  // ---------------------------------------------------------------------
  // getCopyPath
  // ---------------------------------------------------------------------

  predicate EndsWithSpace(s: string) {
    s != [] && s[|s| - 1] == ' '
  }

  /** getCopyPath as written: no copypath argument gives the empty path; with
      the trimming flag set and the text not ending in a space, the last step
      (the one still being typed) is dropped. Dropping it from a text with no
      steps at all asks for a list of capacity -1, and the constructor throws;
      that is the None case. */
  function CopyPathAsWritten(copyPathUnsplit: Option<string>, ignoreLastStepIfNotFollowedBySpace: bool): (r: Option<CopyPath>)
  {
    match copyPathUnsplit
    case None => Some(Empty)
    case Some(text) =>
      var steps := SplitArguments(text);
      if ignoreLastStepIfNotFollowedBySpace && !EndsWithSpace(text) then
        if |steps| - 1 < 0 then None else Some(CopyPath(steps[..|steps| - 1]))
      else Some(CopyPath(steps))
  }

  /** The same method as its loop. */
  method GetCopyPath(copyPathUnsplit: Option<string>, ignoreLastStepIfNotFollowedBySpace: bool)
    returns (r: Option<CopyPath>)
    ensures r == CopyPathAsWritten(copyPathUnsplit, ignoreLastStepIfNotFollowedBySpace)
  {
    if copyPathUnsplit.None? {
      return Some(Empty);
    }
    var text := copyPathUnsplit.value;
    var copyPathSteps := SplitArguments(text);
    if ignoreLastStepIfNotFollowedBySpace && !EndsWithSpace(text) {
      var capacity := |copyPathSteps| - 1;
      if capacity < 0 {
        return None;
      }
      var newCopyPathSteps: seq<string> := [];
      for i := 0 to |copyPathSteps| - 1
        invariant newCopyPathSteps == copyPathSteps[..i]
      {
        newCopyPathSteps := newCopyPathSteps + [copyPathSteps[i]];
      }
      copyPathSteps := newCopyPathSteps;
    }
    r := Some(CopyPath(copyPathSteps));
  }

  /** A blank argument that does not end in a space, such as a single tab,
      makes the code as written throw. */
  lemma BlankArgumentThrows()
    ensures CopyPathAsWritten(Some("\t"), true) == None
  {
    assert IsTrimmable('\t');
    assert SplitArguments("\t") == [];
  }

  /** The evident intent: drop the step being typed if there is one. */
  function CopyPathOf(copyPathUnsplit: Option<string>, ignoreLastStepIfNotFollowedBySpace: bool): (r: CopyPath)
    ensures copyPathUnsplit.None? ==> r == Empty
    ensures forall i | 0 <= i < Length(r) :: r.steps[i] != []
  {
    match copyPathUnsplit
    case None => Empty
    case Some(text) =>
      var steps := SplitArguments(text);
      if ignoreLastStepIfNotFollowedBySpace && !EndsWithSpace(text) && steps != [] then CopyPath(steps[..|steps| - 1])
      else CopyPath(steps)
  }

  /** The corrected version never fails and agrees with the code as written
      wherever that succeeds. */
  lemma CopyPathOfAgrees(copyPathUnsplit: Option<string>, ignoreLastStepIfNotFollowedBySpace: bool)
    ensures CopyPathAsWritten(copyPathUnsplit, ignoreLastStepIfNotFollowedBySpace).Some? ==>
              CopyPathAsWritten(copyPathUnsplit, ignoreLastStepIfNotFollowedBySpace)
              == Some(CopyPathOf(copyPathUnsplit, ignoreLastStepIfNotFollowedBySpace))
    ensures CopyPathAsWritten(copyPathUnsplit, ignoreLastStepIfNotFollowedBySpace).None? <==>
              (copyPathUnsplit.Some? && ignoreLastStepIfNotFollowedBySpace
               && !EndsWithSpace(copyPathUnsplit.value) && SplitArguments(copyPathUnsplit.value) == [])
  {
  }

  // ---------------------------------------------------------------------
  // Suggestions
  // ---------------------------------------------------------------------

  /** The suggester: with no preceding steps the suggestions go out as they
      are; otherwise each is prefixed by the steps joined with spaces and one
      more space, since a suggestion replaces the whole argument. */
  method ComposeSuggestions(copyPath: CopyPath, suggestions: seq<string>) returns (suggested: seq<string>)
    ensures |suggested| == |suggestions|
    ensures forall i | 0 <= i < |suggestions| :: suggested[i] == Composed(copyPath.steps, suggestions[i])
  {
    suggested := [];
    if IsEmpty(copyPath) {
      for i := 0 to |suggestions|
        invariant suggested == suggestions[..i]
      {
        suggested := suggested + [suggestions[i]];
      }
    } else {
      var copyPathJoined := JoinWithSpaces(copyPath.steps) + " ";
      for i := 0 to |suggestions|
        invariant |suggested| == i
        invariant forall k | 0 <= k < i :: suggested[k] == copyPathJoined + suggestions[k]
      {
        suggested := suggested + [copyPathJoined + suggestions[i]];
      }
    }
  }

  /** The argument text a composed suggestion stands for. */
  function Composed(steps: seq<string>, suggestion: string): string {
    if steps == [] then suggestion else JoinWithSpaces(steps) + " " + suggestion
  }

  lemma ComposedIsJoin(steps: seq<string>, suggestion: string)
    requires forall i | 0 <= i < |steps| :: PlainStep(steps[i])
    requires PlainStep(suggestion)
    ensures forall i | 0 <= i < |steps + [suggestion]| :: PlainStep((steps + [suggestion])[i])
    ensures Composed(steps, suggestion) == JoinWithSpaces(steps + [suggestion])
  {
    var all := steps + [suggestion];
    forall i | 0 <= i < |all| ensures PlainStep(all[i]) {
      if i < |steps| { assert all[i] == steps[i]; }
    }
    JoinSnoc(steps, suggestion);
  }

  /** A composed suggestion reads back as the preceding steps followed by the
      suggested name. */
  lemma SuggestionSplits(steps: seq<string>, suggestion: string)
    requires forall i | 0 <= i < |steps| :: PlainStep(steps[i])
    requires PlainStep(suggestion)
    ensures SplitArguments(Composed(steps, suggestion)) == steps + [suggestion]
    ensures var text := Composed(steps, suggestion);
            text != [] && !IsTrimmable(text[0]) && !IsTrimmable(text[|text| - 1])
  {
    ComposedIsJoin(steps, suggestion);
    SplitJoin(steps + [suggestion]);
    JoinEnds(steps + [suggestion]);
  }

  /** While the suggested name is still being typed (no space after it), the
      suggester sees the same preceding steps again. */
  lemma SuggestionWhileTyping(steps: seq<string>, suggestion: string)
    requires forall i | 0 <= i < |steps| :: PlainStep(steps[i])
    requires PlainStep(suggestion)
    ensures CopyPathOf(Some(Composed(steps, suggestion)), true) == CopyPath(steps)
  {
    SuggestionSplits(steps, suggestion);
    var all := steps + [suggestion];
    assert all[..|all| - 1] == steps;
  }

  /** Once a space follows it, the suggested name is a step of the path. */
  lemma SuggestionAccepted(steps: seq<string>, suggestion: string)
    requires forall i | 0 <= i < |steps| :: PlainStep(steps[i])
    requires PlainStep(suggestion)
    ensures CopyPathOf(Some(Composed(steps, suggestion) + " "), true) == CopyPath(steps + [suggestion])
  {
    SuggestionSplits(steps, suggestion);
    SplitIgnoresTrailingSpace(Composed(steps, suggestion));
  }

  lemma SplitIgnoresTrailingSpace(text: string)
    requires text != [] && !IsTrimmable(text[0]) && !IsTrimmable(text[|text| - 1])
    ensures EndsWithSpace(text + " ")
    ensures SplitArguments(text + " ") == SplitArguments(text)
  {
    TrimDropsTrailingSpace(text);
    TrimUntrimmed(text);
  }

  lemma {:induction false} JoinSnoc(steps: seq<string>, last: string)
    ensures JoinWithSpaces(steps + [last])
         == if steps == [] then last else JoinWithSpaces(steps) + " " + last
    decreases |steps|
  {
    if steps == [] {
      assert steps + [last] == [last];
    } else if |steps| == 1 {
      assert steps + [last] == [steps[0], last];
      assert [steps[0], last][1..] == [last];
    } else {
      assert (steps + [last])[1..] == steps[1..] + [last];
      JoinSnoc(steps[1..], last);
    }
  }

  lemma TrimDropsTrailingSpace(s: string)
    requires s != [] && !IsTrimmable(s[0]) && !IsTrimmable(s[|s| - 1])
    ensures Trim(s + " ") == s
  {
    var t := s + " ";
    assert TrimStart(t) == t;
    assert t[..|t| - 1] == s;
    assert TrimEnd(t) == TrimEnd(s);
  }
}
