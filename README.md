# lsvpd HelperFunctions: string and path helpers

A Dafny model of the string and path helpers of `lsvpd::HelperFunctions`
(src/helper_functions.cpp). Each helper is modelled loop for loop, with its quirks:

- `parseString` picks the n-th `"..."` text out of a line.
- `parsePath` picks the k-th `/`-separated component of a path.
- The two `dropDir` overloads cut the last component off a path by writing NULs
  into a buffer.
- `matches` compares a string with a `*` pattern.
- `str2chr` copies a string into a fresh C string.
- The two `fs_fixPath` overloads drop a trailing `/`.
- `countChar` counts one character.
- `contains` scans a list of items for a value.

Files:

- `std_string.dfy`, modules `Wrappers` and `StdString`. It holds the library
  calls the helpers rely on:
  - `std::string::find`, with `None` for `npos`;
  - `std::string::substr`, whose `std::out_of_range` check becomes a
    precondition;
  - C strings: `strlen` and the C string held in a NUL-terminated buffer.
- `fields.dfy`, module `Fields`. It holds the reference definitions the helpers
  are proved against:
  - `Count`, the number of occurrences of a character;
  - `Split`, the fields of a string between occurrences of a delimiter;
  - `Join`, its inverse.
- `helper_functions.dfy`, module `HelperFunctions`. The imperative helpers, as
  methods:
  - `char*` buffers are `array<char>`.
  - A `std::string&` that the C++ writes through is passed in as a value, and
    its new value is returned.
  - A `DataItem` is represented by the string its `getValue()` returns.
- `wildcard.dfy`, module `Wildcard`, holds three parts:
  - `matches` as a recursive function, with what it does and does not match;
  - a matcher that does what the doc-comment of `matches` describes;
  - the proof that this matcher agrees with that description.

Three things in the code go beyond what the doc-comments say:

- `parsePath` wraps `npos + 1` to 0, so counts past the last component cycle
  round the fields. Relative paths lose their first component. The model states
  both exactly, through `PathFieldIndex`.
- `dropDir` returns 1 on every non-empty path.
- The doc-comment of `parseString` numbers positions from 0 ("string 0"), but
  the code rejects `str_pos <= 0` and counts from 1: position 1 is the first
  quoted text. The model follows the code.

`Matches` is checked to terminate, every recursive call being on a shorter
pattern. Its `substr` calls are checked never to throw `std::out_of_range`, the
discarded call at line 461 included.

## Model

| member | source | states |
|---|---|---|
| HelperFunctions.ParseString | src/helper_functions.cpp:217-249 | With the line split at `"`, texts between quote pairs are fields 1, 3, 5, …. The `strPos`-th text is returned and stored in `out` exactly when `strPos > 0` and the line has at least `2*strPos` quotes. In every other case the result is empty and `out` is unchanged: an empty line, `strPos <= 0`, a missing opening quote, an unterminated quote. The result never contains `"`. |
| HelperFunctions.PathFieldIndex | src/helper_functions.cpp:306-309 | The field index that `count` reaches is always a valid index into the path's `/`-fields. |
| HelperFunctions.ParsePath | src/helper_functions.cpp:296-314 | The result is `/`-field number `(count+1) mod (number of fields)`; a negative count selects field 0. When `count + 1` is within range, the result is field `count + 1`. An empty path gives `""`. The result never contains `/`. |
| HelperFunctions.RoundsMod | src/helper_functions.cpp:306-309 | A field counter that goes back to 0 after the last field, which is what `npos + 1 == 0` does to `beg`, equals the number of rounds modulo the number of fields. |
| HelperFunctions.ParsePathExample | src/helper_functions.cpp:288-295 | `/sys/devices/x/y/z` has fields `"", sys, devices, x, y, z`. Counts 0, 1, 2, 4 select `sys`, `devices`, `x`, `z`. Count 5 wraps to the empty field. |
| HelperFunctions.LastSlashBefore | src/helper_functions.cpp:349-353 | Walking down from `hi` stops at 0 or at the highest `/` below `hi`. No `/` lies between the stop and `hi`. |
| HelperFunctions.EraseLastEntry | src/helper_functions.cpp:343-353 | Both dropDir loops, run on a buffer that holds a C string of length `len > 0`. They return 1. The loop index ends at the anchor: the last `/` in `s[1..len-1)`, or 0. Every byte from the end of `DroppedC` through the terminator becomes NUL, and nothing else changes. |
| HelperFunctions.DropDir | src/helper_functions.cpp:334-356 | `dropDir(char*)`: an empty C string gives 0 and the buffer is untouched. Otherwise the result is 1, the whole new buffer is stated, and the C string left in it is `DroppedC` of the old one. |
| HelperFunctions.DropDirString | src/helper_functions.cpp:360-390 | `dropDir(string&)`: an empty path gives 0 and is unchanged. Otherwise the result is 1 and the path becomes `DroppedS`, which is a strict prefix. |
| HelperFunctions.DropDirPrefixes | src/helper_functions.cpp:347-385 | Both overloads leave a strict prefix of a non-empty path. On paths of two or more characters, the `char*` overload keeps exactly one character more than the `string&` one. When the `string&` result is non-empty, that extra character is the separating `/`. |
| HelperFunctions.DropDirExamples | src/helper_functions.cpp:334-390 | `/a/b/c` and `/a/b/c/` both become `/a/b` through `string&`, and `/a/b/` through `char*`. `abc` becomes `""` through `string&` and `a` through `char*`. |
| HelperFunctions.LastSlashBeforePrefix | src/helper_functions.cpp:349-353 | Where the walk down from `h` stops depends only on the characters below `h`. |
| HelperFunctions.DropDirIgnoresTrailingSlash | src/helper_functions.cpp:378 | `dropDir(string&)` gives the same result on `s` and on `s + "/"` when `s` does not end in `/`. |
| HelperFunctions.DropDirRemovesLastComponent | src/helper_functions.cpp:358-390 | On a path not ending in `/`, `dropDir(string&)` leaves the join of all `/`-fields but the last. |
| HelperFunctions.Str2Chr | src/helper_functions.cpp:478-492 | The result is a fresh array one longer than `s`, holding `s` and then NUL. When `s` has no NUL, the array reads back as `s`. |
| HelperFunctions.TrimTrailingSlashRemovesOne | src/helper_functions.cpp:522-524 | At most one trailing `/` is removed, and the result is a prefix. A `/` is removed exactly when the string ended in one. `//` becomes `/`. |
| HelperFunctions.FsFixPathC | src/helper_functions.cpp:509-527 | NULL gives NULL. Otherwise the result is a fresh copy of the C string; its last character becomes NUL if it was `/`. The C string it holds is the input without one trailing `/`. The input is never written. |
| HelperFunctions.LastNonNul | src/helper_functions.cpp:497-500 | The walk down over NULs stops at the last character that is not NUL. |
| HelperFunctions.At | src/helper_functions.cpp:499 | `str[i]` on a non-const `string&`, for `i` up to the length: the character of `str` followed by its NUL terminator at index `i`. |
| HelperFunctions.FsFixPathString | src/helper_functions.cpp:495-503 | `fs_fixPath(string&)`: the length is kept. Only the last non-NUL character can change; it becomes NUL exactly when it is `/`. |
| HelperFunctions.FixPathOverloadsAgree | src/helper_functions.cpp:495-527 | On a non-empty string without NUL, the `string&` overload read as a C string gives what the `char*` overload returns. |
| HelperFunctions.CountChar | src/helper_functions.cpp:575-587 | The result equals `Count(str, c)`, the number of occurrences of `c`, and lies between 0 and the length of `str`. |
| HelperFunctions.CountCharProperties | src/helper_functions.cpp:575-587 | Collects for `countChar` the `Fields` lemmas `CountIsIndexCount` and `CountAppend`: `Count` is the number of indices that hold `c`, is at most the length, and adds up over concatenation. |
| HelperFunctions.Contains | src/helper_functions.cpp:589-600 | True exactly when some item's value equals `val`; false on an empty vector. |
| Wildcard.Matches | src/helper_functions.cpp:429-475 | `matches` as written. The search and recursive call at lines 460-462 are computed and their result dropped. Every recursive call is on a shorter pattern. The `Substr` preconditions show that no `substr` call throws `std::out_of_range`. |
| Wildcard.LeadingStarFallThrough | src/helper_functions.cpp:453-468 | In `*t` with `t` star-free, when `t` is not found, the comparison that follows at line 468 fails. So the code returns false there, and the throwing `substr(npos, …)` is never reached. |
| Wildcard.MatchesBaseCases | src/helper_functions.cpp:436-443 | Every string matches itself. With an empty side, the result is `s1 == s2`, so `*` does not match `""`. `*` matches every non-empty string. |
| Wildcard.MatchesLiteral | src/helper_functions.cpp:466-473 | A pattern without `*` matches exactly the equal string. |
| Wildcard.MatchesLeadingStar | src/helper_functions.cpp:445-458 | `*t` with `t` star-free matches a non-empty `s2` exactly when `t` occurs in `s2`. |
| Wildcard.MatchesPrefixMismatch | src/helper_functions.cpp:466-473 | If `s1`'s literal prefix before its first `*` is not a prefix of `s2`, the result is false. |
| Wildcard.MatchesLiteralThenStar | src/helper_functions.cpp:466-471 | `p*` with `p` non-empty and star-free matches exactly the strings that extend `p` by at least one character. |
| Wildcard.MatchesStarNeedsACharacter | src/helper_functions.cpp:436-437 | `matches("a*", "a")` is false. |
| Wildcard.MatchesSecondStarIsLiteral | src/helper_functions.cpp:459-470 | `matches("*b*", "abc")` is false: the second `*` is compared literally. After that, it acts again as a leading `*`, so `matches("*b*c", "ab*xc")` is true. |
| Wildcard.MatchesLeadingStarIsContains | src/helper_functions.cpp:453-458 | `matches("*b", "bc")` is true, because a leading `*` with no other star only asks that the rest occur in `s2`. The corrected matcher rejects it. |
| Wildcard.GlobMatchesCorrect | src/helper_functions.cpp:424-428 | The corrected matcher `GlobMatches` accepts exactly the strings that `Described` allows. `Described` lets each `*` stand for zero or more characters, as the doc-comment at lines 425-427 of helper_functions.cpp says. |
| Wildcard.GlobMatchesExamples | src/helper_functions.cpp:424-428 | The corrected matcher accepts `("a*", "a")`, `("*b*", "abc")`, `("*b*", "ab*")` and `("*b*c", "ab*xc")`. It rejects `("*b", "bc")` and `("*b*", "acc")`. |
| Fields.JoinSplit | src/helper_functions.cpp:296-314 | Joining the fields of a string with the delimiter gives back the string. |
| Fields.SplitJoin | src/helper_functions.cpp:296-314 | Splitting a non-empty list of fields that were joined gives back the list, when no field holds the delimiter. |
| Fields.FieldAt | src/helper_functions.cpp:311-313 | A stretch without the delimiter, bounded by delimiters or the ends, is the field numbered by the count of delimiters before it. |
| StdString.FindChar | src/helper_functions.cpp:231 | `find(c, from)` gives the first index at or after `from` that holds `c`, or `npos` when there is none. |
| StdString.Find | src/helper_functions.cpp:455 | `find(t, from)` gives the first index at or after `from` where `t` occurs, or `npos` when `t` occurs nowhere from there. |
| StdString.Substr | src/helper_functions.cpp:455 | `substr(pos, len)` with `pos` within the string (else it throws) is the piece starting at `pos` whose length is the smaller of `len` and what remains; `npos` means the rest. |
| StdString.CStr | src/helper_functions.cpp:387 | The C string in a buffer holding a NUL: it has no NUL, is shorter than the buffer, and the buffer starts with it followed by NUL. |
| StdString.StrLen | src/helper_functions.cpp:336 | `strlen` gives the index of the first NUL: the character there is NUL and none comes before it. |
| StdString.CStrTerminated | src/helper_functions.cpp:387 | A string without NUL, followed by a NUL, reads back as itself as a C string. |

## Left out

- Subprocess machinery: `process_child`, `spopen`, `spclose` and `execCmd`. They
  are fork, pipe, dup2, execve and waitpid plumbing with a child process, which
  is concurrency and I/O.
- Filesystem queries: `findAIXFSEntry`, `readMatchFromFile`, `file_exists`,
  `getSymLinkTarget` and `getAbsolutePath`. What they return depends on the
  filesystem (`open`, `ifstream`, `access`, `realpath`, `dirname`).
- `parsePathr`: it writes debug output to `cout`, and no other helper depends
  on it.
- Logging (`log_info`) and `errno`: side effects with no content to state.
- Allocation failure: the `strdup` and `new` NULL checks in `dropDir(string&)`,
  `str2chr` and `fs_fixPath(char*)`. Allocation is taken to succeed.
- Integer widths. Lengths and counts are unbounded integers, so strings are
  taken to be shorter than 2^31 characters. This covers the `int` result of
  `countChar`, and the `int` variables `beg` and `len` of `parsePath` and
  `dropDir`.
- HelperFunctions.FsFixPathC requires a non-empty C string. On `""` the code
  reads `path[-1]`, which is undefined behaviour.
- HelperFunctions.FsFixPathString requires a character other than NUL. On an
  empty or all-NUL string the loop reads before the start, which is undefined
  behaviour.
- HelperFunctions.DropDirString requires a path without NUL. `strdup` of
  `c_str()` would stop at the first NUL.
- `matches` is a function, not a method, because the C++ is pure recursion.
  The discarded call at line 461 is computed in the model and its result is
  unused, as in the code.

## Findings

| source | as written | input that shows it | evidently intended | confidence | as-written member | corrected member |
|---|---|---|---|---|---|---|
| src/helper_functions.cpp:436-437 | Once either side is empty, the result is `s1 == s2`. A trailing `*` is therefore never matched by zero characters, though lines 425-427 say it matches zero or more. | `matches("a*", "a")` returns false | true | not executed | Wildcard.MatchesStarNeedsACharacter | Wildcard.GlobMatchesCorrect |
| src/helper_functions.cpp:459-470 | For a leading `*` followed by a second `*`, the search result at lines 460-462 is discarded. Line 468 then compares `s1.substr(1, end)`, which ends in the second `*`, with the same positions of `s2`. So the first `*` stands for exactly one character, and the second `*` must match itself. After that, the second `*` acts again as a leading `*` for the rest of `s2`. | `matches("*b*", "abc")` returns false | true | not executed | Wildcard.MatchesSecondStarIsLiteral | Wildcard.GlobMatchesCorrect |
| src/helper_functions.cpp:453-458 | For a leading `*` with no other star, the result is true as soon as the rest of the pattern occurs anywhere in `s2`. The pattern's end is never tied to the end of `s2`. | `matches("*b", "bc")` returns true | false | not executed | Wildcard.MatchesLeadingStarIsContains | Wildcard.GlobMatchesCorrect |
