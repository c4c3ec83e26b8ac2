# Documentor front end and autoloader, in Dafny

Documentor is a PHP documentation generator. This project models the part of
it that runs before the parsing starts:

- `Application`. It reads flag values out of `argv`. It strips `"` and spaces
  from each value and trailing `/` and `\` from the source, destination and
  base paths. It decides whether to print the usage text or to generate the
  documentation. It also picks which files of the recursive directory walk
  go to the documentation controller.
- `Autoloader`. It turns a class name into a relative file path. It looks for
  that file in two places, in a fixed order. It then includes the first one
  it finds, or throws an exception.

Modules:

- `Wrappers` (wrappers.dfy): `Option`, which stands for PHP's nullable values
  (`null` is `None`, and `false` returned by a search is `None` too).
- `PhpStrings` (php_strings.dfy): the PHP built-ins the code relies on.
  These are `ltrim`, `rtrim` and `trim` with a character list, `strpos` with
  an offset, `stripos` and one-character `str_replace`. Each is a recursive
  function or a composition of them, and its contract ties it to a
  declarative description of its result (`IsLTrimOf`, `IsRTrimOf`, `IsTrimOf`, `OccursAt`, `FoldedAt`).
- `Application` (application.dfy): the flag lookup, the constructor's
  decision, the settings for `createDocumentation`, and the file filter and
  loop in `parse`.
- `Autoloader` (autoloader.dfy): `exists` and `defaultAutoloader`. The file
  system and the runtime come in through an `Environment` value: `__DIR__`,
  `dirname(Phar::running(false))`, `DIRECTORY_SEPARATOR` and `file_exists`
  as an abstract predicate.

The file filter rejects every path in which `stripos` finds `/test` or
`\test`, not only paths with a `test` directory segment. That includes file
names such as `src/TestCase.php` and directories such as `testing/`. The
path is built from the `-s` value as it was typed, so every file is rejected
when the source path given with `-s` contains `/test` or `\test`. The result
depends on how the root is written, not on where it lies on disk: with
`-s tests/p`, or `-s .` inside a `tests` directory, the paths are
`tests/p/a.php` or `./a.php` and the files are documented.
`MarkedPathRejected` states this behaviour.

## Model

| member | source | states |
|---|---|---|
| `PhpStrings.LTrim` | src/Application/Autoloader.php:21 | `ltrim` removes the longest prefix of characters from the list and nothing else: the result is a suffix of the input, every removed character is in the list, and the result does not start with one |
| `PhpStrings.RTrim` | src/Application/Application.php:30-31 | `rtrim` removes the longest suffix of characters from the list and nothing else: the result is a prefix of the input, every removed character is in the list, and the result does not end with one |
| `PhpStrings.Trim` | src/Application/Application.php:23 | `trim` returns the slice of the input that lies between a prefix and a suffix made of listed characters, and that slice neither starts nor ends with a listed character (an all-listed input gives the empty string) |
| `PhpStrings.LTrimUnique` | src/Application/Autoloader.php:21 | the description of an `ltrim` result fits exactly one string |
| `PhpStrings.RTrimUnique` | src/Application/Application.php:65 | the description of an `rtrim` result fits exactly one string |
| `PhpStrings.TrimUnique` | src/Application/Application.php:24 | the description of a `trim` result fits exactly one string |
| `PhpStrings.RTrimIdempotent` | src/Application/Application.php:64-65 | stripping trailing separators a second time (as happens to a defaulted base) changes nothing |
| `PhpStrings.RTrimKeepsClean` | src/Application/Application.php:30-31 | a string that does not end with a listed character is returned unchanged by `rtrim` |
| `PhpStrings.StrPos` | src/Application/Application.php:94 | `strpos` with an offset returns the first position at or after the offset where the needle occurs, or none exactly when it occurs nowhere from the offset on |
| `PhpStrings.StrIPos` | src/Application/Application.php:95 | `stripos` finds nothing exactly when the needle occurs nowhere in the haystack under ASCII case folding; otherwise it returns the first such occurrence |
| `PhpStrings.StrReplace` | src/Application/Autoloader.php:22 | `str_replace` of one character keeps the length and replaces exactly the occurrences of the searched character, leaving every other character as it was |
| `Application.ArraySearch` | src/Application/Application.php:23-25 | `array_search` returns none exactly when the flag is absent; otherwise it returns a position holding the flag with no earlier occurrence |
| `Application.FlagValue` | src/Application/Application.php:23-25 | a flag has a value exactly when its first occurrence is not the last element; the value is the next element with only `"` and spaces trimmed from both ends, so a missing or trailing flag gives null |
| `Application.LaterArgumentsIgnored` | src/Application/Application.php:61-63 | once a flag occurs before the last element, later duplicates of it and anything appended to `argv` do not change its value |
| `Application.DocumentationSettings` | src/Application/Application.php:61-65 | the log and guide paths are the flag values as read; the base is the `-b` value, or the destination when `-b` has none, with trailing `/` and `\` stripped |
| `Application.Start` | src/Application/Application.php:23-33 | usage is printed exactly when `-h` has a value or `-s` or `-d` has none; otherwise documentation is created with source and destination stripped of trailing separators, no trailing separator on source, destination or base, base equal to destination when `-b` is absent or dangling and the stripped `-b` value otherwise, and the log and guide values as `DocumentationSettings` gives them |
| `Application.NormalisationIsIdempotent` | src/Application/Application.php:30-31 | stripping trailing separators again from the normalised source, destination or base changes nothing |
| `Application.TrailingHelpIgnored` | src/Application/Application.php:23-27 | a `-h` that occurs only as the last argument does not cause the usage text: the outcome depends on `-s` and `-d` alone |
| `Application.ExtensionCheck` | src/Application/Application.php:94 | the `strlen`/`strpos` extension test holds exactly when the path ends with `.php` |
| `Application.IsDocumented` | src/Application/Application.php:93-95 | the filter, written with `strlen`, `strpos` and `stripos`, accepts an entry exactly when it is a file whose path ends with `.php` and contains neither `/test` nor `\test` in any case; paths shorter than `.php` are rejected |
| `Application.MarkedPathRejected` | src/Application/Application.php:95 | any path with `/test` or `\test` in any mix of case anywhere in it is rejected, whatever comes before or after |
| `Application.ExtensionIsCaseSensitive` | src/Application/Application.php:94 | a path ending in `.PHP` is rejected: the extension check is case-sensitive |
| `Application.Parse` | src/Application/Application.php:92-99 | the entries handed to the documentation controller form an order-preserving subsequence of the walk; each qualifies, and each qualifying entry is handed on as many times as the walk yields it |
| `Autoloader.ClassPath` | src/Application/Autoloader.php:21-22 | the class path is the name with its leading backslashes, and only those, removed; every `_` and `\` becomes the separator and every other character is kept, so the length equals that of the stripped name |
| `Autoloader.ClassPathUsesOnlySeparator` | src/Application/Autoloader.php:22 | with `/` as separator no `_` or `\` is left in the class path |
| `Autoloader.LeadingBackslashIrrelevant` | src/Application/Autoloader.php:21 | a leading backslash on the class name does not change where the class is looked for |
| `Autoloader.Candidates` | src/Application/Autoloader.php:24-27 | there are two candidates, the loader directory's first and the phar directory's second; each is that directory, then `/../../../`, then the class path, then `.php` |
| `Autoloader.Locate` | src/Application/Autoloader.php:24-30 | the result is the first existing candidate, the loader directory one before the phar one, or false when neither exists; a found path is a directory, `/../../../`, the class path and `.php` |
| `Autoloader.DefaultAutoloader` | src/Application/Autoloader.php:11-16 | the file is included exactly when some candidate exists, and the included path is the first existing candidate; otherwise the exception carries the class name as given, leading backslashes included |

## Left out

- Error, exception and shutdown handlers, and `mb_internal_encoding` (`setupHandlers`): global side effects whose only output is printing.
- `printUsage` and every `echo`: output text only. The model records the decision to print usage as `PrintUsage`.
- The controllers (`MainController`, `CodeCoverageController`, `UnitTestController`, `DocumentationController`, `GuideController`), with `createTableOfContents` and `createSearchSet`. Their source is not part of this model, so `DocumentationSettings` stops at the values handed to their constructors.
- `RecursiveDirectoryIterator` and `isFile`: the walk is an input sequence of `SourceEntry` values, each with a path and an `isFile` flag. The controller's `parse` call is modelled as the sequence of entries handed to it.
- `file_exists`, `Phar::running`, `dirname` and `__DIR__`: these are fields of `Autoloader.Environment`. `include_once` is modelled as the outcome `Include(path)`, and the exception as `Throw(message)`.
- `spl_autoload_register`: a runtime registration with no logic of its own.
- Application.ArraySearch: PHP's loose `==` comparison is modelled as string equality. This holds for the flags searched for, which are not numeric strings.
- PhpStrings.StrPos: requires 0 <= offset <= |h|. PHP also accepts negative offsets, counted from the end of the haystack; the single caller never passes one.
- PhpStrings.StrIPos: folds only ASCII `A`-`Z`. This is PHP 8.2's behaviour, and the "C" locale's behaviour before 8.2. Other locales are not modelled.
- PHP strings are byte strings and are modelled as `string`. No operation here depends on multi-byte characters.
