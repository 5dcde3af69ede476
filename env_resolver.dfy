/** The `env:` config data location resolver: it turns a location such as
    `env:MY_CONFIG[.yaml]` into at most one resource naming the environment
    variable to read and the property source loader to parse it with. */
module EnvResolver {

  import opened Text
  import opened ExtensionHint

  const PREFIX: string := "env:"

  /** A config data location: its value (any `optional:` marker already
      removed) and whether it was marked optional. */
  datatype Location = Location(value: string, optional: bool)

  /** A property source loader, seen only through its identity and the file
      extensions it declares, in declaration order. */
  datatype Loader = Loader(name: string, fileExtensions: seq<string>)

  /** The resolved resource: the original location, the variable to read and
      the loader chosen for its content. */
  datatype Resource = Resource(location: Location, variableName: string, loader: Loader)

  /** The two ways resolution fails: a required location whose variable is not
      set, and an extension no loader knows. */
  datatype Failure =
    | LocationNotFound(location: Location, message: string)
    | IllegalState(message: string)

  datatype Result<+T> = Ok(value: T) | Err(failure: Failure)

  /** `ConfigDataLocation.getNonPrefixedValue`: the value after the prefix, or
      the value unchanged when it lacks the prefix. */
  function NonPrefixedValue(value: string): (r: string)
    ensures StartsWith(value, PREFIX) ==> value == PREFIX + r
    ensures !StartsWith(value, PREFIX) ==> r == value
  {
    if StartsWith(value, PREFIX) then value[|PREFIX|..] else value
  }

  /** The variable name a location resolves to. */
  function VariableNameOf(location: Location): (name: string) {
    VariableName(NonPrefixedValue(location.value))
  }

  /** The extension, without its dot, that a location's loader must support. */
  function ExtensionOf(location: Location): (ext: string) {
    EffectiveExtension(Extension(NonPrefixedValue(location.value)))
  }

  /** One of the loader's declared extensions equals `ext`, ignoring case. */
  predicate Supports(loader: Loader, ext: string) {
    exists j :: 0 <= j < |loader.fileExtensions| && EqualsIgnoreCase(loader.fileExtensions[j], ext)
  }

  predicate IsKnownExtension(loaders: seq<Loader>, ext: string) {
    exists i :: 0 <= i < |loaders| && Supports(loaders[i], ext)
  }

  /** `loaders[i]` is the first loader in list order that supports `ext`. */
  predicate IsFirstSupporting(loaders: seq<Loader>, ext: string, i: int) {
    0 <= i < |loaders| && Supports(loaders[i], ext)
    && forall k :: 0 <= k < i ==> !Supports(loaders[k], ext)
  }

  function UnknownExtensionMessage(ext: string): (message: string) {
    "File extension '" + ext + "' is not known to any PropertySourceLoader"
  }

  function NotSetMessage(variableName: string): (message: string) {
    "Environment variable '" + variableName + "' is not set"
  }

  /** The resolver with its two collaborators injected: the loader list and
      the environment lookup, where `None` stands for a null result. */
  class EnvConfigDataLocationResolver {

    const loaders: seq<Loader>
    const readEnvVariable: string -> Option<string>

    constructor (loaders: seq<Loader>, readEnvVariable: string -> Option<string>)
      ensures this.loaders == loaders && this.readEnvVariable == readEnvVariable
    {
      this.loaders := loaders;
      this.readEnvVariable := readEnvVariable;
    }

    predicate IsResolvable(location: Location): (b: bool)
      ensures b <==> location.value == PREFIX + NonPrefixedValue(location.value)
    {
      StartsWith(location.value, PREFIX)
    }

    /** Presence is a non-null lookup result; an empty value counts as set. */
    predicate HasEnvVariable(variableName: string): (b: bool)
      ensures b <==> readEnvVariable(variableName) != None
      ensures readEnvVariable(variableName) == Some("") ==> b
    {
      readEnvVariable(variableName).Some?
    }

    /** Finds the first loader declaring the (defaulted, dot-stripped) extension,
        scanning each loader's extensions in order. */
    method GetLoader(extension: Option<string>) returns (r: Result<Loader>)
      ensures r.Ok? <==> IsKnownExtension(loaders, EffectiveExtension(extension))
      ensures r.Ok? ==> exists i :: IsFirstSupporting(loaders, EffectiveExtension(extension), i) && r.value == loaders[i]
      ensures r.Err? ==> r.failure == IllegalState(UnknownExtensionMessage(EffectiveExtension(extension)))
    {
      var ext := if extension.Some? then extension.value else DEFAULT_EXTENSION;
      if StartsWith(ext, ".") {
        ext := ext[1..];
      }
      assert ext == EffectiveExtension(extension);
      var i := 0;
      while i < |loaders|
        invariant 0 <= i <= |loaders|
        invariant forall k :: 0 <= k < i ==> !Supports(loaders[k], ext)
      {
        var supported := loaders[i].fileExtensions;
        var j := 0;
        while j < |supported|
          invariant 0 <= j <= |supported|
          invariant forall m :: 0 <= m < j ==> !EqualsIgnoreCase(supported[m], ext)
        {
          if EqualsIgnoreCase(supported[j], ext) {
            assert IsFirstSupporting(loaders, ext, i);
            return Ok(loaders[i]);
          }
          j := j + 1;
        }
        i := i + 1;
      }
      return Err(IllegalState(UnknownExtensionMessage(ext)));
    }

    /** Resolves a location: the loader is chosen first (an unknown extension
        fails whether or not the variable is set), then a set variable gives
        one resource, an unset one nothing when optional and a not-found
        failure otherwise. */
    method Resolve(location: Location) returns (r: Result<seq<Resource>>)
      ensures r.Err? && r.failure.IllegalState? <==> !IsKnownExtension(loaders, ExtensionOf(location))
      ensures r.Err? && r.failure.IllegalState? ==> r.failure.message == UnknownExtensionMessage(ExtensionOf(location))
      ensures r.Ok? ==> |r.value| <= 1
      ensures r.Ok? && |r.value| == 1
              <==> IsKnownExtension(loaders, ExtensionOf(location)) && HasEnvVariable(VariableNameOf(location))
      ensures r.Ok? && |r.value| == 1 ==>
                r.value[0].location == location && r.value[0].variableName == VariableNameOf(location)
                && exists i :: IsFirstSupporting(loaders, ExtensionOf(location), i) && r.value[0].loader == loaders[i]
      ensures r == Ok([])
              <==> IsKnownExtension(loaders, ExtensionOf(location)) && !HasEnvVariable(VariableNameOf(location))
                   && location.optional
      ensures r.Err? && r.failure.LocationNotFound?
              <==> IsKnownExtension(loaders, ExtensionOf(location)) && !HasEnvVariable(VariableNameOf(location))
                   && !location.optional
      ensures r.Err? && r.failure.LocationNotFound? ==>
                r.failure == LocationNotFound(location, NotSetMessage(VariableNameOf(location)))
    {
      var value := NonPrefixedValue(location.value);
      var extension := Extension(value);
      var variableName := VariableName(value);
      var loader := GetLoader(extension);
      if loader.Err? {
        return Err(loader.failure);
      }
      if HasEnvVariable(variableName) {
        return Ok([Resource(location, variableName, loader.value)]);
      }
      if location.optional {
        return Ok([]);
      }
      return Err(LocationNotFound(location, NotSetMessage(variableName)));
    }
  }

  /** Every `env:` location is resolvable; the prefix test is case-sensitive. */
  lemma IsResolvableCaseSensitive(resolver: EnvConfigDataLocationResolver, payload: string, optional: bool)
    ensures resolver.IsResolvable(Location(PREFIX + payload, optional))
    ensures !resolver.IsResolvable(Location("ENV:" + payload, optional))
  {
    assert (PREFIX + payload)[..|PREFIX|] == PREFIX;
    assert ("ENV:" + payload)[0] != PREFIX[0];
  }

  /** Whenever some loader supports an extension there is a first one. */
  lemma {:induction false} FirstSupportingExists(loaders: seq<Loader>, ext: string)
    requires IsKnownExtension(loaders, ext)
    ensures exists i :: IsFirstSupporting(loaders, ext, i)
  {
    if !Supports(loaders[0], ext) {
      var i :| 0 <= i < |loaders| && Supports(loaders[i], ext);
      assert Supports(loaders[1..][i - 1], ext);
      FirstSupportingExists(loaders[1..], ext);
      var j :| IsFirstSupporting(loaders[1..], ext, j);
      assert IsFirstSupporting(loaders, ext, j + 1);
    } else {
      assert IsFirstSupporting(loaders, ext, 0);
    }
  }

  /** The first supporting loader is unique, so the selection is determined. */
  lemma FirstSupportingUnique(loaders: seq<Loader>, ext: string, i: int, j: int)
    requires IsFirstSupporting(loaders, ext, i) && IsFirstSupporting(loaders, ext, j)
    ensures i == j
  {
  }

  /** Selection ignores the case of the requested extension. */
  lemma SupportsIgnoresCase(loader: Loader, a: string, b: string)
    requires EqualsIgnoreCase(a, b)
    ensures Supports(loader, a) <==> Supports(loader, b)
  {
    forall j | 0 <= j < |loader.fileExtensions|
      ensures EqualsIgnoreCase(loader.fileExtensions[j], a) <==> EqualsIgnoreCase(loader.fileExtensions[j], b)
    {
      EqualsIgnoreCaseEquivalence(loader.fileExtensions[j], a, b);
      EqualsIgnoreCaseEquivalence(loader.fileExtensions[j], b, a);
    }
  }

  /** `env:NAME[.ext]` looks up `NAME` with a loader for `ext` (no dot). */
  lemma HintedLocation(name: string, ext: string, optional: bool)
    requires HasNoLineTerminator(name) && IsExtensionToken(ext)
    ensures VariableNameOf(Location(PREFIX + name + "[" + ext + "]", optional)) == name
    ensures ExtensionOf(Location(PREFIX + name + "[" + ext + "]", optional)) == ext[1..]
  {
    var payload := name + "[" + ext + "]";
    assert PREFIX + name + "[" + ext + "]" == PREFIX + payload;
    assert NonPrefixedValue(PREFIX + payload) == payload by {
      assert StartsWith(PREFIX + payload, PREFIX) by {
        assert (PREFIX + payload)[..|PREFIX|] == PREFIX;
      }
    }
    HintedPayload(name, ext);
  }

  /** `env:NAME` with no well-formed hint looks up `NAME` unchanged with a
      `properties` loader. */
  lemma UnhintedLocation(payload: string, optional: bool)
    requires forall name, ext :: !MatchesPattern(payload, name, ext)
    ensures VariableNameOf(Location(PREFIX + payload, optional)) == payload
    ensures ExtensionOf(Location(PREFIX + payload, optional)) == "properties"
  {
    assert NonPrefixedValue(PREFIX + payload) == payload by {
      assert StartsWith(PREFIX + payload, PREFIX) by {
        assert (PREFIX + payload)[..|PREFIX|] == PREFIX;
      }
    }
    UnhintedPayload(payload);
  }
}
