/** The extension hint of an `env:` payload: the pattern `^(.*)\[(\.\w+)](?!\[)$`,
    applied with `Matcher.matches()`, replaced by a hand-written matcher.

    Because `matches()` must consume the whole input, the negative lookahead
    `(?!\[)` stands right before the end of input and always succeeds: a
    payload is hinted exactly when it is `name + "[" + ext + "]"` with `ext` a
    dot followed by one or more word characters and `name` free of line
    terminators (which `.` does not match). Since `ext` holds no `[`, the split
    is at the last `[` of the payload. */
module ExtensionHint {

  import opened Text

  /** The two groups of a successful match. */
  datatype Hint = Hint(variableName: string, extension: string)

  const DEFAULT_EXTENSION: string := ".properties"

  /** Group 2: `\.\w+`. */
  predicate IsExtensionToken(ext: string) {
    |ext| >= 2 && ext[0] == '.' && forall i :: 1 <= i < |ext| ==> IsWordChar(ext[i])
  }

  /** The language of the pattern, with its two groups named. */
  predicate MatchesPattern(value: string, name: string, ext: string) {
    value == name + "[" + ext + "]" && HasNoLineTerminator(name) && IsExtensionToken(ext)
  }

  /** Hand-written matcher: the payload must end in `]`; the hint opens at the
      last `[` before it. */
  function MatchHint(value: string): (r: Option<Hint>) {
    if |value| == 0 || value[|value| - 1] != ']' then None
    else
      var body := value[..|value| - 1];
      match LastIndexOf(body, '[')
      case None => None
      case Some(k) =>
        var name := body[..k];
        var ext := body[k + 1..];
        if HasNoLineTerminator(name) && IsExtensionToken(ext) then Some(Hint(name, ext)) else None
  }

  /** The matcher accepts exactly the pattern's language, with the same groups. */
  lemma MatchHintCorrect(value: string, name: string, ext: string)
    ensures MatchHint(value) == Some(Hint(name, ext)) <==> MatchesPattern(value, name, ext)
  {
    if MatchesPattern(value, name, ext) {
      var body := value[..|value| - 1];
      assert body == name + "[" + ext;
      assert body[|name|] == '[';
      forall k | |name| < k < |body|
        ensures body[k] != '['
      {
        assert body[k] == ext[k - |name| - 1];
      }
      LastIndexOfAt(body, '[', |name|);
      assert body[..|name|] == name;
      assert body[|name| + 1..] == ext;
    }
    if MatchHint(value) == Some(Hint(name, ext)) {
      var body := value[..|value| - 1];
      var k := LastIndexOf(body, '[').value;
      assert body == body[..k] + "[" + body[k + 1..];
      assert value == body + "]";
    }
  }

  /** No match exactly when no split of the payload fits the pattern. */
  lemma MatchHintNone(value: string)
    ensures MatchHint(value).None? <==> forall name, ext :: !MatchesPattern(value, name, ext)
  {
    forall name, ext
      ensures MatchHint(value) == Some(Hint(name, ext)) <==> MatchesPattern(value, name, ext)
    {
      MatchHintCorrect(value, name, ext);
    }
    if MatchHint(value).Some? {
      var h := MatchHint(value).value;
      assert MatchesPattern(value, h.variableName, h.extension);
    }
  }

  /** `getVariableName`: group 1 when the payload matches, else the whole payload. */
  function VariableName(value: string): (r: string)
    ensures |r| <= |value| && value[..|r|] == r
  {
    match MatchHint(value)
    case Some(h) => h.variableName
    case None => value
  }

  /** `getExtension`: group 2 (dot included) when the payload matches, else none. */
  function Extension(value: string): (r: Option<string>)
    ensures r.Some? ==> IsExtensionToken(r.value) && value == VariableName(value) + "[" + r.value + "]"
    ensures r.None? ==> VariableName(value) == value
  {
    match MatchHint(value)
    case Some(h) => Some(h.extension)
    case None => None
  }

  /** The extension `getLoader` compares: the default when there is no hint,
      then without one leading dot. */
  function EffectiveExtension(extension: Option<string>): (r: string)
    ensures extension.None? ==> r == "properties"
    ensures extension.Some? && StartsWith(extension.value, ".") ==> extension.value == "." + r
    ensures extension.Some? && !StartsWith(extension.value, ".") ==> r == extension.value
  {
    var ext := if extension.Some? then extension.value else DEFAULT_EXTENSION;
    if StartsWith(ext, ".") then ext[1..] else ext
  }

  /** A well-formed trailing hint is split off: the name is what precedes it and
      the extension compared is the hint without its dot. */
  lemma HintedPayload(name: string, ext: string)
    requires HasNoLineTerminator(name) && IsExtensionToken(ext)
    ensures VariableName(name + "[" + ext + "]") == name
    ensures Extension(name + "[" + ext + "]") == Some(ext)
    ensures EffectiveExtension(Extension(name + "[" + ext + "]")) == ext[1..]
  {
    MatchHintCorrect(name + "[" + ext + "]", name, ext);
  }

  /** A payload without a well-formed trailing hint is the variable name as it
      stands, and the `properties` extension is compared. */
  lemma UnhintedPayload(value: string)
    requires forall name, ext :: !MatchesPattern(value, name, ext)
    ensures VariableName(value) == value
    ensures Extension(value) == None
    ensures EffectiveExtension(Extension(value)) == "properties"
  {
    MatchHintNone(value);
  }

  /** Two hints in a row are not rejected: only the last one counts. */
  lemma DoubledHintSplitsAtLast()
    ensures VariableName("name[.a][.b]") == "name[.a]"
    ensures Extension("name[.a][.b]") == Some(".b")
  {
    assert "name[.a][.b]" == "name[.a]" + "[" + ".b" + "]";
    HintedPayload("name[.a]", ".b");
  }

  /** A hint-only payload gives the empty variable name. */
  lemma HintOnlyPayload()
    ensures VariableName("[.yaml]") == ""
    ensures Extension("[.yaml]") == Some(".yaml")
  {
    assert "[.yaml]" == "" + "[" + ".yaml" + "]";
    HintedPayload("", ".yaml");
  }

  /** Helper for `LineTerminatorDefeatsHint`: `body[k]` is the last `[` of `body`
      when nothing after it is a `[` (every later character checked). */
  lemma NoLaterBracket(body: string, k: nat)
    requires k < |body| && body[k] == '['
    requires '[' !in body[k + 1..]
    ensures LastIndexOf(body, '[') == Some(k)
  {
    forall j | k < j < |body|
      ensures body[j] != '['
    {
      assert body[j] == body[k + 1..][j - k - 1];
    }
    LastIndexOfAt(body, '[', k);
  }

  /** Malformed hints fall through to "no hint": whatever the name, when the
      text inside the final `[...]` holds no `[` and is not `\.\w+`, the whole
      payload is the variable name. */
  lemma MalformedLastGroupIsName(name: string, inner: string)
    requires '[' !in inner && !IsExtensionToken(inner)
    ensures VariableName(name + "[" + inner + "]") == name + "[" + inner + "]"
    ensures Extension(name + "[" + inner + "]") == None
  {
    var value := name + "[" + inner + "]";
    var body := value[..|value| - 1];
    assert body == name + "[" + inner;
    forall j | |name| < j < |body|
      ensures body[j] != '['
    {
      assert body[j] == inner[j - |name| - 1];
    }
    LastIndexOfAt(body, '[', |name|);
    assert body[|name| + 1..] == inner;
    assert MatchHint(value) == None;
  }

  /** A dot with no word character is not a hint. */
  lemma EmptyHintIsName()
    ensures VariableName("name[.]") == "name[.]" && Extension("name[.]") == None
  {
    assert "name[.]" == "name" + "[" + "." + "]";
    MalformedLastGroupIsName("name", ".");
  }

  /** A hint without its leading dot is part of the name. */
  lemma DotlessHintIsName()
    ensures VariableName("name[yaml]") == "name[yaml]" && Extension("name[yaml]") == None
  {
    assert "name[yaml]" == "name" + "[" + "yaml" + "]";
    MalformedLastGroupIsName("name", "yaml");
  }

  /** A hint holding a non-word character is part of the name. */
  lemma NonWordHintIsName()
    ensures VariableName("name[.a-b]") == "name[.a-b]" && Extension("name[.a-b]") == None
  {
    assert "name[.a-b]" == "name" + "[" + ".a-b" + "]";
    assert !IsWordChar(".a-b"[2]);
    MalformedLastGroupIsName("name", ".a-b");
  }

  /** A line terminator before the hint defeats the match. */
  lemma LineTerminatorDefeatsHint()
    ensures VariableName("a\nb[.yaml]") == "a\nb[.yaml]" && Extension("a\nb[.yaml]") == None
  {
    NoLaterBracket("a\nb[.yaml", 3);
    assert "a\nb[.yaml"[..3] == "a\nb" && IsLineTerminator("a\nb"[1]);
  }
}
