# env: config data location resolver, in Dafny

This project models Spring Boot's `EnvConfigDataLocationResolver`, the
resolver for `env:` config data locations. A location such as
`env:MY_CONFIG[.yaml]` names an environment variable (`MY_CONFIG`) and,
optionally, an extension hint (`[.yaml]`) that picks the property source
loader used to parse the variable's value. Resolution:

1. strips the `env:` prefix from the location value;
2. matches the rest against `^(.*)\[(\.\w+)](?!\[)$` to split off a hint;
3. takes `.properties` when there is no hint, and strips one leading dot;
4. picks the first loader, in list order, that declares that extension,
   ignoring case, and fails with an `IllegalStateException` otherwise;
5. gives one resource `(location, variableName, loader)` when the variable
   is set (an empty value counts as set), nothing when it is unset and the
   location is optional, and a `ConfigDataLocationNotFoundException` when it
   is unset and the location is required.

Files:

- `text.dfy` (module `Text`): the Java string operations the resolver calls —
  `startsWith` and ASCII `equalsIgnoreCase` — the pattern's `\w` class and the
  line terminators its `.` does not match, and `LastIndexOf`, a helper of the
  hand-written matcher (the resolver calls no such method).
- `extension_hint.dfy` (module `ExtensionHint`): the hint pattern as a
  predicate (`MatchesPattern`), a hand-written matcher (`MatchHint`) proved to
  accept exactly that language with the same groups, and `getVariableName`,
  `getExtension` and the defaulting and dot-stripping of `getLoader`.
- `env_resolver.dfy` (module `EnvResolver`): locations, loaders, resources and
  the two failures as datatypes; the resolver as a class whose two `const`
  fields are the injected collaborators (the loader list and the environment
  lookup `string -> Option<string>`, `None` standing for a null result);
  `GetLoader` as a method with the source's nested loops; `Resolve`.

What the pattern actually accepts: `matches()` must consume the whole
payload, so the lookahead `(?!\[)` sits at the end of input and always
succeeds. A payload is hinted exactly when it is `name + "[" + ext + "]"`,
where `ext` is a dot and one or more of `[A-Za-z0-9_]` and `name` holds no
line terminator. Because `ext` holds no `[`, the split is at the last `[`:
`name[.a][.b]` has variable name `name[.a]` and extension `.b`. Malformed
hints (`name[.]`, `name[yaml]`, `name[.a-b]`) leave the whole payload as the
variable name. The lookahead `(?!\[)` looks as if it were meant to reject a
hint followed by another bracket, but placed before `$` under `matches()` it
never fires, so `name[.a][.b]` splits at the last `[`; the model follows what
the pattern does.

## Model

All source paths are in
`spring-boot-project/spring-boot/src/main/java/org/springframework/boot/context/config/`.

| member | source | states |
|---|---|---|
| ExtensionHint.MatchHintCorrect | spring-boot-project/spring-boot/src/main/java/org/springframework/boot/context/config/EnvConfigDataLocationResolver.java:37 | The matcher returns groups `(name, ext)` exactly when the payload is `name + "[" + ext + "]"` with `ext` = `.` plus one or more word characters and `name` free of line terminators (both directions; the groups are unique). |
| ExtensionHint.MatchHintNone | spring-boot-project/spring-boot/src/main/java/org/springframework/boot/context/config/EnvConfigDataLocationResolver.java:37 | The pattern fails to match exactly when no split of the payload fits it. |
| ExtensionHint.VariableName | spring-boot-project/spring-boot/src/main/java/org/springframework/boot/context/config/EnvConfigDataLocationResolver.java:100-105 | The variable name is always a prefix of the payload. |
| ExtensionHint.Extension | spring-boot-project/spring-boot/src/main/java/org/springframework/boot/context/config/EnvConfigDataLocationResolver.java:107-112 | A present extension is a well-formed `.ext` token and the payload is the variable name followed by `[` + that token + `]`; with no extension the variable name is the whole payload. |
| ExtensionHint.EffectiveExtension | spring-boot-project/spring-boot/src/main/java/org/springframework/boot/context/config/EnvConfigDataLocationResolver.java:79-84 | With no hint the compared extension is `properties` (the `.properties` default without its dot); otherwise exactly one leading dot is removed, and an extension without one is kept as it is. |
| ExtensionHint.HintedPayload | spring-boot-project/spring-boot/src/main/java/org/springframework/boot/context/config/EnvConfigDataLocationResolver.java:64-66 | For every well-formed `name[.ext]`, the variable name is `name`, the extension `.ext` and the compared extension `ext`. |
| ExtensionHint.UnhintedPayload | spring-boot-project/spring-boot/src/main/java/org/springframework/boot/context/config/EnvConfigDataLocationResolver.java:100-112 | A payload the pattern does not match is the variable name unchanged, has no extension, and compares as `properties`. |
| ExtensionHint.DoubledHintSplitsAtLast | spring-boot-project/spring-boot/src/main/java/org/springframework/boot/context/config/EnvConfigDataLocationResolver.java:37 | `name[.a][.b]` gives variable name `name[.a]` and extension `.b`. |
| ExtensionHint.HintOnlyPayload | spring-boot-project/spring-boot/src/main/java/org/springframework/boot/context/config/EnvConfigDataLocationResolver.java:37 | `[.yaml]` gives the empty variable name, passed on as it is, and extension `.yaml`. |
| ExtensionHint.MalformedLastGroupIsName | spring-boot-project/spring-boot/src/main/java/org/springframework/boot/context/config/EnvConfigDataLocationResolver.java:37 | For every name, if the text inside the final, bracket-free `[...]` is not a dot followed by word characters, there is no hint and the whole payload is the variable name. |
| ExtensionHint.EmptyHintIsName | spring-boot-project/spring-boot/src/main/java/org/springframework/boot/context/config/EnvConfigDataLocationResolver.java:37 | `name[.]` is not hinted: it is the variable name as a whole. |
| ExtensionHint.DotlessHintIsName | spring-boot-project/spring-boot/src/main/java/org/springframework/boot/context/config/EnvConfigDataLocationResolver.java:37 | `name[yaml]` is not hinted: it is the variable name as a whole. |
| ExtensionHint.NonWordHintIsName | spring-boot-project/spring-boot/src/main/java/org/springframework/boot/context/config/EnvConfigDataLocationResolver.java:37 | `name[.a-b]` is not hinted: it is the variable name as a whole. |
| ExtensionHint.LineTerminatorDefeatsHint | spring-boot-project/spring-boot/src/main/java/org/springframework/boot/context/config/EnvConfigDataLocationResolver.java:37 | A newline before the hint stops the match, so `a\nb[.yaml]` is the variable name as a whole. |
| EnvResolver.NonPrefixedValue | spring-boot-project/spring-boot/src/main/java/org/springframework/boot/context/config/EnvConfigDataLocationResolver.java:63 | For a value starting with `env:`, the value is `env:` followed by the result; any other value is returned unchanged. |
| EnvResolver.EnvConfigDataLocationResolver.IsResolvable | spring-boot-project/spring-boot/src/main/java/org/springframework/boot/context/config/EnvConfigDataLocationResolver.java:56-58 | A location is resolvable exactly when its value is `env:` followed by its payload. |
| EnvResolver.IsResolvableCaseSensitive | spring-boot-project/spring-boot/src/main/java/org/springframework/boot/context/config/EnvConfigDataLocationResolver.java:56-58 | Every `env:` value is resolvable, and the same payload behind `ENV:` (other case) is not. |
| EnvResolver.EnvConfigDataLocationResolver.HasEnvVariable | spring-boot-project/spring-boot/src/main/java/org/springframework/boot/context/config/EnvConfigDataLocationResolver.java:96-98 | A variable is present exactly when the lookup is non-null, an empty value included. |
| EnvResolver.EnvConfigDataLocationResolver.constructor | spring-boot-project/spring-boot/src/main/java/org/springframework/boot/context/config/EnvConfigDataLocationResolver.java:50-53 | The resolver holds exactly the injected loader list and environment lookup. |
| EnvResolver.EnvConfigDataLocationResolver.GetLoader | spring-boot-project/spring-boot/src/main/java/org/springframework/boot/context/config/EnvConfigDataLocationResolver.java:78-94 | Succeeds exactly when some loader declares the defaulted, dot-stripped extension ignoring case, and then returns the first such loader in list order; otherwise fails with `IllegalState("File extension '<ext>' is not known to any PropertySourceLoader")`, `<ext>` without its dot. |
| EnvResolver.EnvConfigDataLocationResolver.Resolve | spring-boot-project/spring-boot/src/main/java/org/springframework/boot/context/config/EnvConfigDataLocationResolver.java:61-76 | Fails with the unknown-extension failure exactly when no loader supports the extension, whatever the environment holds; otherwise one resource `(location, variableName, first supporting loader)` exactly when the lookup is non-null, the empty list exactly when it is null and the location optional, and `LocationNotFound(location, "Environment variable '<name>' is not set")` exactly when it is null and the location required; every list has at most one element. |
| EnvResolver.FirstSupportingExists | spring-boot-project/spring-boot/src/main/java/org/springframework/boot/context/config/EnvConfigDataLocationResolver.java:85-91 | Whenever some loader supports the extension, there is a first one in list order. |
| EnvResolver.FirstSupportingUnique | spring-boot-project/spring-boot/src/main/java/org/springframework/boot/context/config/EnvConfigDataLocationResolver.java:85-91 | The first supporting loader is unique, so the loader chosen is determined by the list. |
| EnvResolver.SupportsIgnoresCase | spring-boot-project/spring-boot/src/main/java/org/springframework/boot/context/config/EnvConfigDataLocationResolver.java:87 | Two requested extensions that differ only in ASCII case are supported by the same loaders. |
| EnvResolver.HintedLocation | spring-boot-project/spring-boot/src/main/java/org/springframework/boot/context/config/EnvConfigDataLocationResolver.java:63-67 | `env:NAME[.ext]` looks up `NAME` and needs a loader for `ext`. |
| EnvResolver.UnhintedLocation | spring-boot-project/spring-boot/src/main/java/org/springframework/boot/context/config/EnvConfigDataLocationResolver.java:63-67 | `env:` plus a payload without a well-formed hint looks up the payload unchanged and needs a loader for `properties`. |
| Text.EqualsIgnoreCaseEquivalence | spring-boot-project/spring-boot/src/main/java/org/springframework/boot/context/config/EnvConfigDataLocationResolver.java:87 | Comparing extensions ignoring case is reflexive, symmetric and transitive. |

## Left out

- The no-argument constructor (lines 45-48): it discovers loaders through `SpringFactoriesLoader` and reads the process environment with `System::getenv`. The model starts from the constructor with injected collaborators (lines 50-53).
- Parsing by `PropertySourceLoader`: a loader is only its name and its declared extensions. Loader identity is a value, so two loaders with the same name and extensions are indistinguishable; `GetLoader` and `Resolve` still say which position in the list was chosen.
- `ConfigDataLocation` is not part of this model. Its prefix test is taken to be a case-sensitive `startsWith`, its non-prefixed value the text after `env:` (the value unchanged when the prefix is missing), and the `optional:` marker is already removed and given as a flag.
- `EnvConfigDataResource` and `EnvConfigDataLoader` are not part of this model: a resource is a plain triple, and loading a resolved resource (re-reading the variable and parsing it) is not modelled.
- The `context` parameters of `isResolvable` and `resolve` are unused and left out; exceptions are values of `Failure`, without the exception class hierarchy or the `null` cause.
- Text.EqualsIgnoreCase: folds ASCII letters only, where Java's `equalsIgnoreCase` also folds other Unicode letters.
- Strings are sequences of Unicode scalar values rather than UTF-16 code units; `\w` and the line terminators do not depend on this, but a surrogate pair is one character here.
- The general `java.util.regex` engine: only the one hint pattern is modelled, by a hand-written matcher proved equal to the pattern's language.
