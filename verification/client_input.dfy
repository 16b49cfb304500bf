/** The command-line grammar of the client (cached-client/src/input_parsing.rs), over
    nom's complete-input combinators with `VerboseError`. A parser either succeeds with
    the rest of the input, fails recoverably (`Err::Error`, so `alt` tries the next
    branch) or fails for good (`Err::Failure`, raised by `cut`). Error entries keep
    their kind and context label but not the input position they point at. */
module ClientInput {
  import opened Wrappers

  /** The client's own request: keys and values are plain strings here. */
  datatype Command =
    | Get(key: string)
    | Set(key: string, value: string, ttl: Option<nat>)
    | Delete(key: string)
    | Flush

  datatype ErrorKind = Tag | Space | TakeUntil | Verify | Alt

  /** `VerboseErrorKind`, without the `Char` kind no parser here produces. */
  datatype ErrorEntry = Nom(kind: ErrorKind) | Context(message: string)

  datatype Outcome<T> = Parsed(rest: string, output: T) | Backtrack(errors: seq<ErrorEntry>) | Cut(errors: seq<ErrorEntry>)

  const EXPECTED_KEY: string := "Expected key"
  const EXPECTED_VALUE: string := "Expected value"

  /** ASCII lower-casing. The command words are ASCII letters none of which is the
      lower case of a non-ASCII character, so this decides `tag_no_case` for them
      exactly as Unicode lower-casing does. */
  function Lower(c: char): char {
    if 'A' <= c <= 'Z' then (c as int + 32) as char else c
  }

  predicate SameIgnoringCase(a: string, b: string) {
    |a| == |b| && forall i | 0 <= i < |a| :: Lower(a[i]) == Lower(b[i])
  }

  /** `tag_no_case(tag)`. */
  function TagNoCase(tag: string, input: string): (r: Outcome<string>)
    ensures r.Parsed? <==> |tag| <= |input| && SameIgnoringCase(input[..|tag|], tag)
    ensures r.Parsed? ==> r.output == input[..|tag|] && r.rest == input[|tag|..]
    ensures !r.Parsed? ==> r == Backtrack([Nom(Tag)])
  {
    if |tag| <= |input| && SameIgnoringCase(input[..|tag|], tag) then Parsed(input[|tag|..], input[..|tag|])
    else Backtrack([Nom(Tag)])
  }

  predicate IsSpace(c: char) {
    c == ' ' || c == '\t'
  }

  /** Length of the run of spaces and tabs at the front of s. */
  function SpaceRun(s: string): (n: nat)
    ensures n <= |s|
    ensures forall i | 0 <= i < n :: IsSpace(s[i])
    ensures n < |s| ==> !IsSpace(s[n])
  {
    if |s| > 0 && IsSpace(s[0]) then 1 + SpaceRun(s[1..]) else 0
  }

  /** `space1`: one or more spaces or tabs, as many as there are. */
  function Space1(input: string): (r: Outcome<string>)
    ensures r.Parsed? <==> |input| > 0 && IsSpace(input[0])
    ensures r.Parsed? ==> && |r.output| > 0 && r.output + r.rest == input
                          && (forall i | 0 <= i < |r.output| :: IsSpace(r.output[i]))
                          && (|r.rest| > 0 ==> !IsSpace(r.rest[0]))
    ensures !r.Parsed? ==> r == Backtrack([Nom(Space)])
  {
    var n := SpaceRun(input);
    if n == 0 then Backtrack([Nom(Space)])
    else
      assert input[..n] + input[n..] == input;
      Parsed(input[n..], input[..n])
  }

  /** Position of the first c in s, if any. */
  function IndexOf(s: string, c: char): (r: Option<nat>)
    ensures r.None? <==> c !in s
    ensures r.Some? ==> r.value < |s| && s[r.value] == c && c !in s[..r.value]
  {
    if |s| == 0 then None
    else if s[0] == c then Some(0)
    else
      match IndexOf(s[1..], c)
      case None => None
      case Some(i) =>
        assert s[..i + 1] == [s[0]] + s[1..][..i];
        Some(i + 1)
  }

  /** `take_until1(c)`: everything before the first c, which must be there and not
      at the very front. */
  function TakeUntil1(c: char, input: string): (r: Outcome<string>)
    ensures r.Parsed? <==> c in input && input[0] != c
    ensures r.Parsed? ==> && |r.output| > 0 && c !in r.output
                          && r.output + r.rest == input && r.rest[0] == c
    ensures !r.Parsed? ==> r == Backtrack([Nom(TakeUntil)])
  {
    match IndexOf(input, c)
    case None => Backtrack([Nom(TakeUntil)])
    case Some(i) =>
      if i == 0 then Backtrack([Nom(TakeUntil)])
      else
        assert input[..i] + input[i..] == input;
        Parsed(input[i..], input[..i])
  }

  /** `cut`: a recoverable failure becomes final. */
  function CutFailure<T>(o: Outcome<T>): (r: Outcome<T>)
    ensures !r.Backtrack?
    ensures o.Parsed? ==> r == o
    ensures !o.Parsed? ==> r == Cut(o.errors)
  {
    match o
    case Backtrack(errors) => Cut(errors)
    case _ => o
  }

  /** `context(label, ..)`: a failure of either kind gets the label appended. */
  function WithContext<T>(context: string, o: Outcome<T>): (r: Outcome<T>)
    ensures o.Parsed? ==> r == o
    ensures o.Backtrack? ==> r == Backtrack(o.errors + [Context(context)])
    ensures o.Cut? ==> r == Cut(o.errors + [Context(context)])
  {
    match o
    case Parsed(_, _) => o
    case Backtrack(errors) => Backtrack(errors + [Context(context)])
    case Cut(errors) => Cut(errors + [Context(context)])
  }

  /** A key or value as the shell reads it: non-empty text up to the newline, without
      a space. */
  predicate IsWord(s: string) {
    |s| > 0 && '\n' !in s && ' ' !in s
  }

  /** A word ends the input's first line exactly when the first line is non-empty
      and holds no space. */
  lemma FirstLineIsWord(input: string)
    ensures (exists i | 0 <= i < |input| :: input[i] == '\n' && IsWord(input[..i]))
            <==> TakeUntil1('\n', input).Parsed? && ' ' !in TakeUntil1('\n', input).output
  {
    var line := TakeUntil1('\n', input);
    if line.Parsed? && ' ' !in line.output {
      var i := |line.output|;
      assert input[..i] == line.output && input[i] == '\n';
    } else if line.Parsed? {
      var i := |line.output|;
      forall j | 0 <= j < |input| && input[j] == '\n' ensures !IsWord(input[..j]) {
        if j > i {
          assert input[..j][i] == '\n';
        } else {
          assert input[..j] == line.output[..j];
          assert j == i;
        }
      }
    } else {
      forall j | 0 <= j < |input| && input[j] == '\n' ensures !IsWord(input[..j]) {
        if j > 0 {
          assert input[..j][0] == '\n';
        }
      }
    }
  }

  /** `parse_str_until_newline_without_whitespaces`: the text up to the first newline,
      which must be non-empty and hold no space; the newline is left unconsumed. It
      never fails recoverably. */
  function ParseWordUntilNewline(input: string): (r: Outcome<string>)
    ensures r.Parsed? <==> exists i | 0 <= i < |input| :: input[i] == '\n' && IsWord(input[..i])
    ensures r.Parsed? ==> IsWord(r.output) && r.output + r.rest == input && r.rest[0] == '\n'
    ensures !r.Backtrack?
    ensures r.Cut? ==> r.errors == [Nom(TakeUntil)] || r.errors == [Nom(Verify)]
  {
    var line := TakeUntil1('\n', input);
    var checked :=
      match line
      case Parsed(rest, text) => if ' ' !in text then line else Backtrack([Nom(Verify)])
      case _ => line;
    FirstLineIsWord(input);
    CutFailure(checked)
  }

  /** `parse_flush`. */
  function ParseFlush(input: string): (r: Outcome<Option<Command>>)
    ensures r.Parsed? <==> TagNoCase("flush", input).Parsed?
    ensures r.Parsed? ==> r == Parsed(input[5..], Some(Flush))
    ensures !r.Parsed? ==> r == Backtrack([Nom(Tag)])
  {
    match TagNoCase("flush", input)
    case Parsed(rest, _) => Parsed(rest, Some(Flush))
    case Backtrack(e) => Backtrack(e)
    case Cut(e) => Cut(e)
  }

  /** `parse_exit`: the command that ends the shell, hence no request. */
  function ParseExit(input: string): (r: Outcome<Option<Command>>)
    ensures r.Parsed? <==> TagNoCase("exit", input).Parsed?
    ensures r.Parsed? ==> r == Parsed(input[4..], None)
    ensures !r.Parsed? ==> r == Backtrack([Nom(Tag)])
  {
    match TagNoCase("exit", input)
    case Parsed(rest, _) => Parsed(rest, None)
    case Backtrack(e) => Backtrack(e)
    case Cut(e) => Cut(e)
  }

  predicate AllSpaces(s: string) {
    forall i | 0 <= i < |s| :: IsSpace(s[i])
  }

  /** input is the command word in any case, a run of spaces and tabs, then key, then rest. */
  predicate CommandShape(word: string, input: string, key: string, rest: string) {
    var m := |input| - |key| - |rest|;
    && |word| < m <= |input|
    && SameIgnoringCase(input[..|word|], word)
    && AllSpaces(input[|word|..m])
    && input[m..] == key + rest
  }

  /** The part shared by `get` and `delete`: the command word, then a cut separator
      labelled "Expected key", then the key, labelled when keyLabelled. */
  function ParseKeyCommand(word: string, keyLabelled: bool, input: string): (r: Outcome<string>)
    ensures !TagNoCase(word, input).Parsed? ==> r == Backtrack([Nom(Tag)])
    ensures TagNoCase(word, input).Parsed? ==> !r.Backtrack?
    ensures r.Parsed? ==> && CommandShape(word, input, r.output, r.rest)
                          && IsWord(r.output) && !IsSpace(r.output[0]) && |r.rest| > 0 && r.rest[0] == '\n'
  {
    var tag := TagNoCase(word, input);
    if !tag.Parsed? then Backtrack([Nom(Tag)])
    else
      var separator := WithContext(EXPECTED_KEY, CutFailure(Space1(tag.rest)));
      if !separator.Parsed? then separator
      else
        var key := ParseWordUntilNewline(separator.rest);
        var labelled := if keyLabelled then WithContext(EXPECTED_KEY, CutFailure(key)) else key;
        if labelled.Parsed? then
          ShapeOfParts(word, input, separator.output, separator.rest, labelled.output, labelled.rest);
          labelled
        else labelled
  }

  lemma ShapeOfParts(word: string, input: string, spaces: string, afterSpaces: string, key: string, rest: string)
    requires TagNoCase(word, input).Parsed?
    requires TagNoCase(word, input).rest == spaces + afterSpaces
    requires |spaces| > 0 && AllSpaces(spaces) && afterSpaces == key + rest
    ensures CommandShape(word, input, key, rest)
  {
    var m := |input| - |key| - |rest|;
    assert input[|word|..] == spaces + afterSpaces;
    assert input[|word|..m] == spaces;
    assert input[m..] == afterSpaces;
  }

  /** The converse of the shape `ParseKeyCommand` promises: every input of that shape
      parses, to exactly that key and rest. */
  lemma KeyCommandOfShape(word: string, keyLabelled: bool, input: string, key: string, rest: string)
    requires CommandShape(word, input, key, rest)
    requires IsWord(key) && !IsSpace(key[0]) && |rest| > 0 && rest[0] == '\n'
    ensures ParseKeyCommand(word, keyLabelled, input) == Parsed(rest, key)
  {
    StepsOfShape(word, input, key, rest);
  }

  /** Each step of `get` and `delete` succeeds on an input of that shape: the command
      word, then the blanks, then the key up to the newline. */
  lemma StepsOfShape(word: string, input: string, key: string, rest: string)
    requires CommandShape(word, input, key, rest)
    requires IsWord(key) && !IsSpace(key[0]) && |rest| > 0 && rest[0] == '\n'
    ensures var spaces := input[|word|..|input| - |key| - |rest|];
            && TagNoCase(word, input) == Parsed(spaces + (key + rest), input[..|word|])
            && Space1(spaces + (key + rest)) == Parsed(key + rest, spaces)
            && ParseWordUntilNewline(key + rest) == Parsed(rest, key)
  {
    var spaces := input[|word|..|input| - |key| - |rest|];
    TagOfShape(word, input, key, rest);
    Space1Splits(spaces, key + rest);
    WordBeforeNewline(key, rest);
  }

  /** `WordThenNewline`, with the newline at the front of what follows. */
  lemma WordBeforeNewline(word: string, rest: string)
    requires IsWord(word) && |rest| > 0 && rest[0] == '\n'
    ensures ParseWordUntilNewline(word + rest) == Parsed(rest, word)
  {
    assert rest == "\n" + rest[1..];
    assert word + rest == word + "\n" + rest[1..];
    WordThenNewline(word, rest[1..]);
  }

  /** The command word of an input of that shape matches, leaving the blanks, the key
      and the rest. */
  lemma TagOfShape(word: string, input: string, key: string, rest: string)
    requires CommandShape(word, input, key, rest)
    ensures TagNoCase(word, input) == Parsed(input[|word|..|input| - |key| - |rest|] + (key + rest), input[..|word|])
  {
    var spaces := input[|word|..|input| - |key| - |rest|];
    assert input[|word|..] == spaces + (key + rest);
    assert input == input[..|word|] + (spaces + (key + rest));
    TagMatch(word, input[..|word|], spaces + (key + rest));
  }

  /** `parse_get`. */
  function ParseGet(input: string): (r: Outcome<Option<Command>>)
    ensures r.Backtrack? <==> ParseKeyCommand("get", true, input).Backtrack?
    ensures r.Parsed? <==> ParseKeyCommand("get", true, input).Parsed?
    ensures r.Parsed? ==> r.output == Some(Get(ParseKeyCommand("get", true, input).output))
  {
    match ParseKeyCommand("get", true, input)
    case Parsed(rest, key) => Parsed(rest, Some(Get(key)))
    case Backtrack(e) => Backtrack(e)
    case Cut(e) => Cut(e)
  }

  /** `parse_delete`: its key parser carries no context label. */
  function ParseDelete(input: string): (r: Outcome<Option<Command>>)
    ensures r.Backtrack? <==> ParseKeyCommand("delete", false, input).Backtrack?
    ensures r.Parsed? <==> ParseKeyCommand("delete", false, input).Parsed?
    ensures r.Parsed? ==> r.output == Some(Delete(ParseKeyCommand("delete", false, input).output))
  {
    match ParseKeyCommand("delete", false, input)
    case Parsed(rest, key) => Parsed(rest, Some(Delete(key)))
    case Backtrack(e) => Backtrack(e)
    case Cut(e) => Cut(e)
  }

  /** input is `set` in any case, blanks, key, a gap of blanks starting with a space,
      value, then rest. */
  predicate SetShape(input: string, key: string, gap: string, value: string, rest: string) {
    && CommandShape("set", input, key, gap + value + rest)
    && |gap| > 0 && gap[0] == ' ' && AllSpaces(gap)
  }

  /** A failure, carried over to another output type. */
  function Failed<T, U>(o: Outcome<T>): (r: Outcome<U>)
    requires !o.Parsed?
    ensures !r.Parsed? && r.Backtrack? == o.Backtrack? && r.errors == o.errors
  {
    if o.Backtrack? then Backtrack(o.errors) else Cut(o.errors)
  }

  /** The pieces `parse_set` takes put together make its shape. */
  lemma SetShapeOfParts(input: string, spaces: string, afterSpace: string, key: string, afterKey: string,
                        gap: string, afterGap: string, value: string, rest: string)
    requires TagNoCase("set", input).Parsed? && TagNoCase("set", input).rest == spaces + afterSpace
    requires |spaces| > 0 && AllSpaces(spaces)
    requires afterSpace == key + afterKey && |afterKey| > 0 && afterKey[0] == ' '
    requires afterKey == gap + afterGap && AllSpaces(gap) && |gap| > 0
    requires afterGap == value + rest
    ensures SetShape(input, key, gap, value, rest)
  {
    assert afterSpace == key + (gap + value + rest);
    ShapeOfParts("set", input, spaces, afterSpace, key, gap + value + rest);
  }

  /** `parse_set`: word, cut separator, the key up to the next space (cut), more
      space, then the value up to the newline (cut). The TTL is never set. */
  function ParseSet(input: string): (r: Outcome<Option<Command>>)
    ensures !TagNoCase("set", input).Parsed? ==> r == Backtrack([Nom(Tag)])
    ensures TagNoCase("set", input).Parsed? ==> !r.Backtrack?
    ensures r.Parsed? ==> && r.output.Some? && r.output.value.Set?
                          && r.output.value.ttl == None
                          && |r.output.value.key| > 0 && ' ' !in r.output.value.key
                          && !IsSpace(r.output.value.key[0])
                          && IsWord(r.output.value.value) && !IsSpace(r.output.value.value[0])
                          && |r.rest| > 0 && r.rest[0] == '\n'
                          && exists gap :: SetShape(input, r.output.value.key, gap, r.output.value.value, r.rest)
  {
    var tag := TagNoCase("set", input);
    if !tag.Parsed? then Failed(tag)
    else
      var separator := Space1(tag.rest);
      if !separator.Parsed? then Failed(WithContext(EXPECTED_KEY, CutFailure(separator)))
      else
        var key := TakeUntil1(' ', separator.rest);
        if !key.Parsed? then Failed(WithContext(EXPECTED_KEY, CutFailure(key)))
        else
          // The key stops at a space, so the second `space1` cannot fail.
          var gap := Space1(key.rest);
          assert gap.Parsed?;
          var value := ParseWordUntilNewline(gap.rest);
          if !value.Parsed? then Failed(WithContext(EXPECTED_VALUE, CutFailure(value)))
          else
            SetShapeOfParts(input, separator.output, separator.rest, key.output, key.rest,
                            gap.output, gap.rest, value.output, value.rest);
            Parsed(value.rest, Some(Set(key.output, value.output, None)))
  }

  /** The input forms each parsed command comes from; rest is what is left over. */
  ghost predicate InputShape(input: string, command: Option<Command>, rest: string) {
    match command
    case None => |input| >= 4 && SameIgnoringCase(input[..4], "exit") && rest == input[4..]
    case Some(Flush) => |input| >= 5 && SameIgnoringCase(input[..5], "flush") && rest == input[5..]
    case Some(Get(key)) =>
      CommandShape("get", input, key, rest) && IsWord(key) && !IsSpace(key[0]) && |rest| > 0 && rest[0] == '\n'
    case Some(Delete(key)) =>
      CommandShape("delete", input, key, rest) && IsWord(key) && !IsSpace(key[0]) && |rest| > 0 && rest[0] == '\n'
    case Some(Set(key, value, ttl)) =>
      && ttl.None?
      && (exists gap :: SetShape(input, key, gap, value, rest))
      && |key| > 0 && ' ' !in key && !IsSpace(key[0])
      && IsWord(value) && !IsSpace(value[0]) && |rest| > 0 && rest[0] == '\n'
  }

  /** `parse_input`: `alt` over set, flush, get, delete, exit. The first success or
      final failure wins; when every branch fails recoverably, the error is the last
      branch's (`VerboseError::or` keeps the newer error) with `Alt` appended. */
  function ParseInput(input: string): (r: Outcome<Option<Command>>)
    ensures r.Backtrack? ==> r.errors == [Nom(Tag), Nom(Alt)]
    ensures r.Parsed? ==> InputShape(input, r.output, r.rest)
  {
    var setting := ParseSet(input);
    if !setting.Backtrack? then setting
    else
      var flushing := ParseFlush(input);
      if !flushing.Backtrack? then flushing
      else
        var getting := ParseGet(input);
        if !getting.Backtrack? then getting
        else
          var deleting := ParseDelete(input);
          if !deleting.Backtrack? then deleting
          else
            var exiting := ParseExit(input);
            if !exiting.Backtrack? then exiting
            else Backtrack(exiting.errors + [Nom(Alt)])
  }

  /** `convert_error`: the label of the first context entry, if there is one. */
  function ConvertError(errors: seq<ErrorEntry>): (r: Option<string>)
    ensures r.None? <==> forall i | 0 <= i < |errors| :: errors[i].Nom?
    ensures r.Some? ==> exists i | 0 <= i < |errors| ::
                          && errors[i] == Context(r.value)
                          && forall j | 0 <= j < i :: errors[j].Nom?
  {
    if |errors| == 0 then None
    else if errors[0].Context? then Some(errors[0].message)
    else
      var r := ConvertError(errors[1..]);
      if r.Some? then
        var i :| 0 <= i < |errors[1..]| && errors[1..][i] == Context(r.value) && forall j | 0 <= j < i :: errors[1..][j].Nom?;
        assert errors[i + 1] == Context(r.value);
        r
      else r
  }

  /** A run of spaces and tabs followed by something else is exactly what `space1` takes. */
  lemma Space1Splits(spaces: string, t: string)
    requires |spaces| > 0 && AllSpaces(spaces)
    requires |t| > 0 ==> !IsSpace(t[0])
    ensures Space1(spaces + t) == Parsed(t, spaces)
  {
    SpaceRunOf(spaces, t);
    assert (spaces + t)[..|spaces|] == spaces && (spaces + t)[|spaces|..] == t;
  }

  lemma {:induction false} SpaceRunOf(spaces: string, t: string)
    requires AllSpaces(spaces)
    requires |t| > 0 ==> !IsSpace(t[0])
    ensures SpaceRun(spaces + t) == |spaces|
  {
    if |spaces| > 0 {
      assert (spaces + t)[1..] == spaces[1..] + t;
      SpaceRunOf(spaces[1..], t);
    } else {
      assert spaces + t == t;
    }
  }

  /** A word followed by a newline is what the key and value parser takes. */
  lemma WordThenNewline(word: string, rest: string)
    requires IsWord(word)
    ensures ParseWordUntilNewline(word + "\n" + rest) == Parsed("\n" + rest, word)
  {
    var input := word + "\n" + rest;
    IndexOfFirst(word, '\n', rest);
    assert input[..|word|] == word;
    assert input[|word|..] == "\n" + rest;
  }

  /** The first c after a stretch without c is found right there. */
  lemma {:induction false} IndexOfFirst(s: string, c: char, rest: string)
    requires c !in s
    ensures IndexOf(s + [c] + rest, c) == Some(|s|)
  {
    if |s| > 0 {
      assert (s + [c] + rest)[1..] == s[1..] + [c] + rest;
      IndexOfFirst(s[1..], c, rest);
    }
  }

  /** A command word that does not begin like tag fails tag. */
  lemma TagMismatch(tag: string, input: string)
    requires |tag| > 0 && |input| > 0 && Lower(input[0]) != Lower(tag[0])
    ensures TagNoCase(tag, input) == Backtrack([Nom(Tag)])
  {
    if |tag| <= |input| {
      assert input[..|tag|][0] == input[0];
    }
  }

  lemma TagMatch(tag: string, word: string, rest: string)
    requires SameIgnoringCase(word, tag)
    ensures TagNoCase(tag, word + rest) == Parsed(rest, word)
  {
    assert (word + rest)[..|tag|] == word;
    assert (word + rest)[|tag|..] == rest;
  }

  /** `get`, in any case, spaces, a key and a newline give `Get(key)`; the newline is
      left over. */
  lemma GetCommand(word: string, spaces: string, key: string, rest: string)
    requires SameIgnoringCase(word, "get") && |spaces| > 0 && AllSpaces(spaces)
    requires IsWord(key) && !IsSpace(key[0])
    ensures ParseInput(word + spaces + key + "\n" + rest) == Parsed("\n" + rest, Some(Get(key)))
  {
    var input := word + spaces + key + "\n" + rest;
    assert input == word + (spaces + (key + "\n" + rest));
    assert Lower(input[0]) == 'g';
    TagMismatch("set", input);
    TagMismatch("flush", input);
    TagMatch("get", word, spaces + (key + "\n" + rest));
    Space1Splits(spaces, key + "\n" + rest);
    WordThenNewline(key, rest);
  }

  /** The same for `delete`. */
  lemma DeleteCommand(word: string, spaces: string, key: string, rest: string)
    requires SameIgnoringCase(word, "delete") && |spaces| > 0 && AllSpaces(spaces)
    requires IsWord(key) && !IsSpace(key[0])
    ensures ParseInput(word + spaces + key + "\n" + rest) == Parsed("\n" + rest, Some(Delete(key)))
  {
    var input := word + spaces + key + "\n" + rest;
    assert input == word + (spaces + (key + "\n" + rest));
    assert Lower(input[0]) == 'd';
    TagMismatch("set", input);
    TagMismatch("flush", input);
    TagMismatch("get", input);
    TagMatch("delete", word, spaces + (key + "\n" + rest));
    Space1Splits(spaces, key + "\n" + rest);
    WordThenNewline(key, rest);
  }

  /** `set`, in any case, spaces, a key without spaces, a gap that starts with a space,
      a value and a newline give `Set` without TTL. */
  lemma SetCommand(word: string, spaces: string, key: string, gap: string, value: string, rest: string)
    requires SameIgnoringCase(word, "set") && |spaces| > 0 && AllSpaces(spaces)
    requires |key| > 0 && ' ' !in key && !IsSpace(key[0])
    requires |gap| > 0 && gap[0] == ' ' && AllSpaces(gap)
    requires IsWord(value) && !IsSpace(value[0])
    ensures ParseInput(word + spaces + key + gap + value + "\n" + rest) == Parsed("\n" + rest, Some(Set(key, value, None)))
  {
    var tail := value + "\n" + rest;
    var input := word + spaces + key + gap + value + "\n" + rest;
    assert input == word + (spaces + (key + (gap + tail)));
    TagMatch("set", word, spaces + (key + (gap + tail)));
    Space1Splits(spaces, key + (gap + tail));
    KeyThenGap(key, gap, tail);
    Space1Splits(gap, tail);
    WordThenNewline(value, rest);
  }

  /** The key of `set` runs up to the first space. */
  lemma KeyThenGap(key: string, gap: string, tail: string)
    requires |key| > 0 && ' ' !in key && |gap| > 0 && gap[0] == ' '
    ensures TakeUntil1(' ', key + (gap + tail)) == Parsed(gap + tail, key)
  {
    var s := key + (gap + tail);
    assert s == key + [' '] + (gap[1..] + tail);
    IndexOfFirst(key, ' ', gap[1..] + tail);
    assert s[..|key|] == key && s[|key|..] == gap + tail;
  }

  /** `flush` and `exit` need nothing after them, and whatever follows is left over. */
  lemma FlushAndExit(word: string, rest: string)
    ensures SameIgnoringCase(word, "flush") ==> ParseInput(word + rest) == Parsed(rest, Some(Flush))
    ensures SameIgnoringCase(word, "exit") ==> ParseInput(word + rest) == Parsed(rest, None)
  {
    if SameIgnoringCase(word, "flush") {
      TagMismatch("set", word + rest);
      TagMatch("flush", word, rest);
    }
    if SameIgnoringCase(word, "exit") {
      assert Lower((word + rest)[0]) == 'e';
      TagMismatch("set", word + rest);
      TagMismatch("flush", word + rest);
      TagMismatch("get", word + rest);
      TagMismatch("delete", word + rest);
      TagMatch("exit", word, rest);
    }
  }

  /** Without a newline after the separator, `get` fails for good and the shell is
      told "Expected key"; `delete` fails for good with no message, its key parser
      having no context. */
  lemma MissingNewline(word: string, after: string)
    requires '\n' !in after && |after| > 0 && IsSpace(after[0])
    ensures SameIgnoringCase(word, "get") ==>
              ParseInput(word + after).Cut? && ConvertError(ParseInput(word + after).errors) == Some(EXPECTED_KEY)
    ensures SameIgnoringCase(word, "delete") ==>
              ParseInput(word + after).Cut? && ConvertError(ParseInput(word + after).errors) == None
  {
    var input := word + after;
    if SameIgnoringCase(word, "get") {
      assert Lower(input[0]) == 'g';
      TagMismatch("set", input);
      TagMismatch("flush", input);
      TagMatch("get", word, after);
      MissingNewlineCut(after);
    }
    if SameIgnoringCase(word, "delete") {
      assert Lower(input[0]) == 'd';
      TagMismatch("set", input);
      TagMismatch("flush", input);
      TagMismatch("get", input);
      TagMatch("delete", word, after);
      MissingNewlineCut(after);
    }
  }

  /** After the command word, input without a newline never yields a key. */
  lemma MissingNewlineCut(after: string)
    requires '\n' !in after
    ensures var separator := Space1(after);
            separator.Parsed? ==> ParseWordUntilNewline(separator.rest).Cut?
  {
    var separator := Space1(after);
    if separator.Parsed? {
      assert forall c | c in separator.rest :: c in after;
    }
  }

  /** A command word followed by something other than a space or tab is a final
      failure labelled "Expected key": alternatives after it are not tried. */
  lemma MissingSeparator(word: string, after: string)
    requires |after| == 0 || !IsSpace(after[0])
    ensures SameIgnoringCase(word, "get") ==>
              ParseInput(word + after) == Cut([Nom(Space), Context(EXPECTED_KEY)])
    ensures SameIgnoringCase(word, "set") ==>
              ParseInput(word + after) == Cut([Nom(Space), Context(EXPECTED_KEY)])
  {
    var input := word + after;
    if SameIgnoringCase(word, "get") {
      assert Lower(input[0]) == 'g';
      TagMismatch("set", input);
      TagMismatch("flush", input);
      TagMatch("get", word, after);
    }
    if SameIgnoringCase(word, "set") {
      TagMatch("set", word, after);
    }
  }

  /** When no command word matches, there is nothing for the shell to report. */
  lemma UnknownCommand(input: string)
    requires ParseInput(input).Backtrack?
    ensures ConvertError(ParseInput(input).errors) == None
  {
  }
}
