# QuerySpec: Maven coordinate parsing and search-query rendering

This project models `QuerySpec` from pom-cli (package `com.github.andirady.mq`) in Dafny and proves properties of it. `QuerySpec` is the record `(groupId, artifactId, version)` the CLI uses to look an artifact up in the Maven Central search index. Any of its fields may be null.

- `QuerySpec.of(spec)` cuts a coordinate such as `g:a:v` at its colons with Java's `String.split(":")`.
  - One part becomes the artifact.
  - Two parts become group and artifact.
  - Three parts become group, artifact and version.
  - Any other number of parts throws `IllegalArgumentException("Invalid spec: " + spec)`.
- `toString()` adds one Lucene clause (`g:…`, `a:…`, `v:…`) per non-null field to a `StringJoiner` with delimiter `" AND "`, in that fixed order.
- `toURI()` puts that text in the query `q=<text>&start=0&rows=1`. The URL has scheme `https`, host `search.maven.org`, path `/solrsearch/select` and no fragment.

Files:

- `java_lang.dfy`, module `JavaLang`, models the Java platform pieces the record depends on:
  - `Option` stands for a nullable reference.
  - `Join` is how `StringJoiner` and `String.join` lay out their parts.
  - `Segments` and `StripTrailingEmpty` define `Split`, the exact behaviour of `String.split(":")` with limit 0. A string without a colon comes back whole, so `""` gives `[""]`. Otherwise every piece between colons is kept and then the trailing empty pieces are dropped, so `":"` gives `[]` and `"a:b:"` gives `["a", "b"]`.
  - `StringJoiner` is a class whose `Add` appends to its element sequence.
- `query_spec.dfy`, module `MavenQuery`, models the record and its three operations:
  - the record is a datatype with `Option` fields;
  - `Of` returns a `Result` whose `IllegalArgument` case stands for the exception;
  - `ToString` is a method that drives a `StringJoiner` as the source does, and it is proved equal to the pure `LuceneQuery`;
  - `ToUri` is a method that returns the five arguments handed to `java.net.URI`.

The reference definitions that the lemmas connect to the operations:

- `Coordinate` joins the present fields with `":"`. It is what `Of` reads back.
- `Parsable` describes exactly the records `Of` can return.
- `Segments` and `Join` are each other's inverse on colon-free parts.

Where the design notes and the code disagree, the model follows the code:

- The canonical form the design describes joins fields with `:`. The code's `toString` renders Lucene clauses joined by `" AND "` instead. `ToString` models the code, and `Coordinate` is only the reference for round trips.
- The design says unspecified fields are absent and never the empty string. The code keeps empty parts: `""` gives artifact `""`, and `"::x"` gives group `""`, artifact `""` and version `"x"`. It also drops trailing empty parts, so `"a:"` parses like `"a"`. The model keeps these edge cases.
- The design promises `parse(format(x)) == x` for three-field records. This holds only when no field contains a colon and the version is not empty. `MavenQuery.OfCoordinate` states the exact condition, `Parsable`.

## Model

| member | source | states |
|---|---|---|
| JavaLang.StripTrailingEmpty | src/main/java/com/github/andirady/mq/QuerySpec.java:11 | the result is a prefix of the parts; only empty strings follow it; it does not itself end in an empty string |
| JavaLang.Split | src/main/java/com/github/andirady/mq/QuerySpec.java:11 | no part holds a colon; a string without a colon comes back as the single part `[s]`; otherwise the parts are the colon-separated segments with only trailing empty segments removed, and the last kept part is non-empty |
| JavaLang.SplitEmptyIff | src/main/java/com/github/andirady/mq/QuerySpec.java:11 | split yields no parts exactly when the input is a non-empty run of colons (`":"`, `"::"`) |
| JavaLang.SplitTrailingColon | src/main/java/com/github/andirady/mq/QuerySpec.java:11 | for any non-empty input, appending a colon does not change the parts (`"a:b:"` splits like `"a:b"`) |
| JavaLang.SplitLeadingColon | src/main/java/com/github/andirady/mq/QuerySpec.java:11 | a leading colon adds a leading empty part whenever the rest holds a character other than a colon: leading empty segments are kept |
| JavaLang.SplitReadsBack | src/main/java/com/github/andirady/mq/QuerySpec.java:11 | the kept parts joined with `:` are a prefix of the input, and the rest of the input is colons only |
| JavaLang.SplitJoin | src/main/java/com/github/andirady/mq/QuerySpec.java:11 | splitting colon-free parts joined with `:` gives the parts back, if the last part is non-empty whenever there are two or more |
| MavenQuery.Of | src/main/java/com/github/andirady/mq/QuerySpec.java:10-22 | succeeds exactly when split gives 1, 2 or 3 parts; on success the present fields are the parts in order, the artifact is present, no field holds a colon, and a version comes only with a group; on failure the message is `"Invalid spec: " + spec` |
| MavenQuery.OfReadsBack | src/main/java/com/github/andirady/mq/QuerySpec.java:10-18 | a parsed record's fields joined with `:` are the input up to a run of trailing colons |
| MavenQuery.OfCoordinate | src/main/java/com/github/andirady/mq/QuerySpec.java:10-18 | every record in `Of`'s range (`Parsable`) is parsed back from its `g:a:v` coordinate, so with `Of`'s contract the range of `Of` is exactly `Parsable` |
| MavenQuery.OfTrailingColon | src/main/java/com/github/andirady/mq/QuerySpec.java:11-18 | for a non-empty spec, `of(spec + ":")` succeeds exactly when `of(spec)` does and gives the same record |
| MavenQuery.OfLeadingColon | src/main/java/com/github/andirady/mq/QuerySpec.java:11-18 | `":a:v"` parses to group `""`, artifact `a`, version `v` |
| MavenQuery.OfRejectsManyParts | src/main/java/com/github/andirady/mq/QuerySpec.java:19-20 | four or more colon-free parts with a non-empty last part are rejected with message `"Invalid spec: " + spec` |
| MavenQuery.OfRejectsOnlyColons | src/main/java/com/github/andirady/mq/QuerySpec.java:19-20 | a non-empty spec of colons only (zero parts) is rejected with message `"Invalid spec: " + spec` |
| MavenQuery.OfEmpty | src/main/java/com/github/andirady/mq/QuerySpec.java:11-14 | `of("")` succeeds with artifact `""` and null group and version |
| MavenQuery.OfRejectsFourParts | src/main/java/com/github/andirady/mq/QuerySpec.java:19-20 | `"a:b:c:d"` is rejected |
| MavenQuery.OfDoubleLeadingColon | src/main/java/com/github/andirady/mq/QuerySpec.java:11-18 | `"::x"` gives group `""`, artifact `""`, version `"x"` |
| MavenQuery.OfTrailingColonExample | src/main/java/com/github/andirady/mq/QuerySpec.java:11-16 | `"a:b:"` and `"a:b"` both give group `a`, artifact `b`, null version |
| MavenQuery.ToString | src/main/java/com/github/andirady/mq/QuerySpec.java:33-48 | the text the `StringJoiner` produces is the clauses `g:`, `a:`, `v:` of the non-null fields, in that order, separated by `" AND "` |
| MavenQuery.LuceneQueryEmptyIff | src/main/java/com/github/andirady/mq/QuerySpec.java:33-48 | the text is empty exactly when all three fields are null |
| MavenQuery.LuceneQueryOfThreeParts | src/main/java/com/github/andirady/mq/QuerySpec.java:10-48 | `of("x:y:z")` then `toString()` gives `"g:x AND a:y AND v:z"` for colon-free x, y, z with z non-empty |
| MavenQuery.LuceneQueryOfTwoParts | src/main/java/com/github/andirady/mq/QuerySpec.java:10-48 | `of("x:y")` then `toString()` gives `"g:x AND a:y"` for colon-free x, y with y non-empty |
| MavenQuery.LuceneQueryOfOnePart | src/main/java/com/github/andirady/mq/QuerySpec.java:10-48 | `of("y")` then `toString()` gives `"a:y"` for any colon-free y |
| MavenQuery.LuceneQueryInjective | src/main/java/com/github/andirady/mq/QuerySpec.java:33-48 | on records `of` can return, different records give different query texts, so `toString` loses nothing |
| MavenQuery.ToUri | src/main/java/com/github/andirady/mq/QuerySpec.java:24-31 | scheme `https`, host `search.maven.org`, path `/solrsearch/select`, query `"q=" + toString() + "&start=0&rows=1"`, no fragment |
| MavenQuery.UriQueryInjective | src/main/java/com/github/andirady/mq/QuerySpec.java:26-27 | the query text can be read back from the query component, so different parsable records get different URLs |

## Left out

- Percent-encoding by the five-argument `java.net.URI` constructor, and the wrapping of `URISyntaxException` in `IllegalArgumentException` (QuerySpec.java:25-30). These are library behaviour. `ToUri` returns the unquoted arguments.
- `of(null)`: the source throws `NullPointerException` at `spec.split`. `Of` takes a non-null string.
- Java strings are UTF-16 code units; Dafny `char` is a Unicode scalar value. Splitting at `':'` does not depend on the difference.
- The record's generated `equals`, `hashCode` and accessors are not modelled separately. Datatype equality and field selectors play their part.
- `IdCommand` is not part of this model. Its source is not available, and `IdCommandTest.java` only exercises it from outside. This covers descriptor creation and update, parent-descriptor discovery, toolchain detection, and the filesystem and process collaborators.
- The remote search request that uses the URL is a network call and is not modelled.
