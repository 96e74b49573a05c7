# TrackerCommand project selection, modelled in Dafny

This project models the base class `TrackerCommand` of the Joomla! issue tracker's
command-line application (`cli/CliApp/Command/TrackerCommand.php`). The class holds the
state that every CLI command shares: the DI container, the logger, the list of command
options, a help description and the project the command works on. Its one piece of real
logic is `selectProject()`, which decides which tracked project that is:

- **Explicit id.** The id comes from `--project`, or from `-p` when `--project` is absent.
  When it is non-zero, the list is scanned for the first project with that id. The
  scan assigns the `project` field and stops. The failure check then looks at the field,
  not at whether the scan matched. So a project stored before the call is kept when no
  id matches, and `Invalid project` is thrown only when the field is still empty.
- **Interactive menu.** With id 0, the projects whose `gh_user` and `gh_project` are both
  truthy are numbered 1, 2, 3, ... in list order into the `$checks` map and printed. The
  operator's answer goes through `(int) trim(...)`. A value of 0 aborts with `Aborted`.
  A value that is not a key of `$checks` fails with `Invalid project`. Any other value
  selects that entry.
- On success the command logs `Processing project: <info>title</info>` with its markup
  stripped (`logOut`), and it records the project id in the request input.

Modules:

- `Wrappers`: `Option`, `Result` and `Outcome`, the shapes of nullable fields and of
  calls that throw.
- `PhpString`: the PHP built-ins the selection relies on. These are `trim()`, the `(int)`
  cast of a string (an optional sign, then the leading digits; 0 when no digit follows),
  and the decimal text of an integer concatenated to a string.
- `Markup`: `preg_replace('/\<[a-z\/]+\>/', '', $text)` as the function `StripTags`. It
  makes one left-to-right pass and removes each non-overlapping match.
- `ProjectSelection`: the `Project` row, the GitHub-link test, the menu (`Linked`,
  `Menu`, `MenuLines`), the loop that builds it (`BuildMenu`), the lookup by id
  (`FirstWithId`) and `Selection`, the outcome of a selection as a function of the list,
  the explicit id, the parsed answer and the stored project.
- `Command`: the class `TrackerCommand<Container, Logger>`. Its fields are the PHP
  fields. It also has three fields for what the class writes out: `console`, `logged`
  and `inputProject`. Its methods change those fields in place, as the PHP methods do.
  `GetDescription` is the read-only accessor of `description`.

The project list read from `#__tracker_projects`, the values of `--project` and `-p`,
and the line the operator types are parameters of `SelectProject`. The DI container and
the logger are type parameters of the class, because the model only stores them and
checks whether a container is set.

Two behaviours of the code are easy to miss:

- A GitHub column counts as set when it is truthy in PHP. So `"0"` counts as unset, as
  `""` does, and not only the empty string.
- An explicit id that matches nothing does not fail when a project is already stored.
  The stored project is used instead (`ExplicitMiss`).

## Model

| member | source | states |
|---|---|---|
| `PhpString.Trim` | cli/CliApp/Command/TrackerCommand.php:336 | trim() leaves no trim character (space, tab, LF, CR, NUL, vertical tab) at either end and never lengthens the text; `TrimPadded` shows that it removes exactly the runs of trim characters around the text |
| `PhpString.TrimPadded` | cli/CliApp/Command/TrackerCommand.php:336 | `trim(w1 . x . w2)` is x for any runs w1, w2 of trim characters and any x that neither starts nor ends with one |
| `PhpString.IntCast` | cli/CliApp/Command/TrackerCommand.php:336 | the (int) cast is non-zero only when the text starts with a digit or with a sign followed by a digit, and it is negative only after a leading '-' |
| `PhpString.IntToString` | cli/CliApp/Command/TrackerCommand.php:327 | the text of an integer is non-empty and has no trim character at either end |
| `PhpString.NatToString` | cli/CliApp/Command/TrackerCommand.php:327 | the text of a non-negative integer is all digits, with no leading zero |
| `PhpString.IntCastOfIntToStringBefore` | cli/CliApp/Command/TrackerCommand.php:327-336 | the cast of the printed text of any integer, followed by anything that does not start with a digit, is that integer: the cast stops at the first non-digit |
| `PhpString.IntCastOfIntToString` | cli/CliApp/Command/TrackerCommand.php:327-336 | casting the printed text of any integer gives that integer back |
| `PhpString.IntCastOfPaddedInt` | cli/CliApp/Command/TrackerCommand.php:336 | `(int) trim(w1 . n . w2)` is n for any runs w1, w2 of trim characters, such as a typed number followed by a new line |
| `Markup.TagAtHead` | cli/CliApp/Command/TrackerCommand.php:168 | a non-zero result is the length of a prefix that is one whole match of `<[a-z/]+>` |
| `Markup.TagAtHeadOfTag` | cli/CliApp/Command/TrackerCommand.php:168 | when the text starts with a match of `<[a-z/]+>`, the pattern matches exactly that prefix, whatever follows |
| `Markup.StripTags` | cli/CliApp/Command/TrackerCommand.php:168 | stripping never lengthens the text |
| `Markup.StripTagsTagFreePrefix` | cli/CliApp/Command/TrackerCommand.php:168 | a prefix without '<' is kept as it is, and the pass goes on behind it unchanged |
| `Markup.StripTagsLeadingTag` | cli/CliApp/Command/TrackerCommand.php:168 | a tag at the head is removed as a whole and the rest is stripped as if alone |
| `Markup.NoTagInTagFree` | cli/CliApp/Command/TrackerCommand.php:168 | text without '<' holds no match of `<[a-z/]+>` |
| `Markup.StripTagsNoTagBefore` | cli/CliApp/Command/TrackerCommand.php:168 | text holding no match of `<[a-z/]+>` passes through unchanged when what follows it is empty or starts with '<', and the pass goes on behind it; a '<' in the text, as in `a < b`, is kept |
| `Markup.StripTagsIdentity` | cli/CliApp/Command/TrackerCommand.php:168 | text holding no match of `<[a-z/]+>` is left unchanged |
| `Markup.StripTagsClosingTag` | cli/CliApp/Command/TrackerCommand.php:168 | a lone tag strips to the empty string |
| `Markup.StripTagsWrapped` | cli/CliApp/Command/TrackerCommand.php:168 | text holding no match between an opening and a closing tag, after a prefix without '<', loses exactly the two tags |
| `Markup.StripTagsSinglePass` | cli/CliApp/Command/TrackerCommand.php:168 | removal is one pass and not idempotent: `<<b>b>` becomes `<b>`, which a second pass would remove |
| `ProjectSelection.Truthy` | cli/CliApp/Command/TrackerCommand.php:325 | `""` and `"0"` are falsy, so a `"0"` GitHub column counts as unset; every string of two or more characters is truthy |
| `ProjectSelection.IsLinked` | cli/CliApp/Command/TrackerCommand.php:325 | a linked project has both GitHub columns non-empty, and any project whose two columns have at least two characters each is linked |
| `ProjectSelection.Linked` | cli/CliApp/Command/TrackerCommand.php:323-331 | the menu holds at most as many projects as the list, each from the list and each with both GitHub columns truthy |
| `ProjectSelection.Menu` | cli/CliApp/Command/TrackerCommand.php:319-331 | the keys of `$checks` are exactly 1..k for k linked projects, and key n holds the n-th linked project in list order |
| `ProjectSelection.MenuLine` | cli/CliApp/Command/TrackerCommand.php:327 | after the opening `<b>` the line reads back, through the same `(int)` cast as the answer, as the menu number it was built with; the line ends with the project id, `) ` and the title |
| `ProjectSelection.BuildMenu` | cli/CliApp/Command/TrackerCommand.php:319-331 | the counter loop builds exactly `Menu(projects)` and prints exactly one numbered line per linked project, in order |
| `ProjectSelection.MenuLines` | cli/CliApp/Command/TrackerCommand.php:323-331 | the menu prints exactly one line per linked project, each followed by a new line |
| `ProjectSelection.MenuScreen` | cli/CliApp/Command/TrackerCommand.php:315-334 | the interactive screen is five fixed writes plus one line per linked project; every write ends its line except the last, which is the prompt `Select a project:`, so the answer is typed on the prompt's line |
| `ProjectSelection.MenuLineAt` | cli/CliApp/Command/TrackerCommand.php:327 | menu line n (from 0) shows the number n + 1, then the id and title of the (n + 1)-th linked project |
| `ProjectSelection.LinkedPrefix` | cli/CliApp/Command/TrackerCommand.php:323-331 | the linked projects of a prefix of the list are a prefix of the menu: numbers, once given, are kept |
| `ProjectSelection.MenuNumbering` | cli/CliApp/Command/TrackerCommand.php:319-331 | a linked project is listed under one more than the number of linked projects before it, so unlinked projects consume no number |
| `ProjectSelection.LinkedComplete` | cli/CliApp/Command/TrackerCommand.php:323-331 | the n-th linked project (from 0) stands at a position of the list with exactly n linked projects before it |
| `ProjectSelection.MenuComplete` | cli/CliApp/Command/TrackerCommand.php:319-331 | every menu entry is a linked project of the list, under the number `MenuNumbering` gives it (together: the menu is exactly the linked projects) |
| `ProjectSelection.ExplicitId` | cli/CliApp/Command/TrackerCommand.php:311 | a given `--project` value wins; when `--project` is absent the value of `-p` is used, and 0 when neither is given; a non-zero id therefore comes from one of the two |
| `ProjectSelection.ParseResponse` | cli/CliApp/Command/TrackerCommand.php:336 | an answer made only of blanks (such as a bare new line) reads as 0, and a non-zero answer starts, once trimmed, with a number |
| `ProjectSelection.FirstWithId` | cli/CliApp/Command/TrackerCommand.php:353-361 | a found project is in the list and carries the id; nothing is found only when no project in the list carries it |
| `ProjectSelection.Selection` | cli/CliApp/Command/TrackerCommand.php:313-367 | a failure is `Aborted` or `Invalid project` and nothing else; with no explicit id the selected project is a linked project of the list; with an explicit id it is a project of the list carrying that id, or else the stored project |
| `ProjectSelection.FirstWithIdFound` | cli/CliApp/Command/TrackerCommand.php:353-361 | the lookup finds the first project in list order whose id matches |
| `ProjectSelection.FirstWithIdMissing` | cli/CliApp/Command/TrackerCommand.php:353-361 | the lookup finds nothing when no project has the id |
| `ProjectSelection.InteractiveSelection` | cli/CliApp/Command/TrackerCommand.php:336-348 | with no explicit id: `Aborted` iff the answer casts to 0; `Invalid project` iff it is non-zero and outside 1..k (so every non-zero answer when the menu is empty); success iff it is in 1..k, selecting the answer-th linked project, which has both GitHub columns set |
| `ProjectSelection.SelectingShownNumber` | cli/CliApp/Command/TrackerCommand.php:323-348 | the menu line of a linked project shows its number, and typing that number, with any surrounding blanks, selects that project |
| `ProjectSelection.ExplicitSelection` | cli/CliApp/Command/TrackerCommand.php:353-361 | with a non-zero explicit id, the first project in list order with that id is selected, linked or not |
| `ProjectSelection.ExplicitIgnoresResponse` | cli/CliApp/Command/TrackerCommand.php:311-313 | with a non-zero explicit id, the outcome does not depend on any answer |
| `ProjectSelection.ExplicitMiss` | cli/CliApp/Command/TrackerCommand.php:363-366 | with a non-zero explicit id no project carries, the stored project is kept if there is one, and `Invalid project` is thrown otherwise |
| `ProjectSelection.ProcessingLine` | cli/CliApp/Command/TrackerCommand.php:369 | whatever the title, the logged form of the line starts with `Processing project: ` |
| `ProjectSelection.LoggedProcessingLine` | cli/CliApp/Command/TrackerCommand.php:369 | the logged line of a project whose title holds no match of `<[a-z/]+>` (a title such as `a < b` included) is `Processing project: ` followed by the title |
| `Command.TrackerCommand.constructor` | cli/CliApp/Command/TrackerCommand.php:81-83 | a new command has no container, no logger, no options, an empty description and no project |
| `Command.TrackerCommand.GetDescription` | cli/CliApp/Command/TrackerCommand.php:101-104 | returns the stored description, and reads no field but `description` |
| `Command.TrackerCommand.AddOption` | cli/CliApp/Command/TrackerCommand.php:115-120 | appends exactly one option at the end and leaves the earlier options unchanged |
| `Command.TrackerCommand.SetLogger` | cli/CliApp/Command/TrackerCommand.php:194-197 | stores the logger |
| `Command.TrackerCommand.SetContainer` | cli/CliApp/Command/TrackerCommand.php:227-232 | stores the container |
| `Command.TrackerCommand.GetContainer` | cli/CliApp/Command/TrackerCommand.php:208-216 | fails with UnexpectedValueException('Container not set') exactly when no container is set, and otherwise returns the stored container |
| `Command.TrackerCommand.Out` | cli/CliApp/Command/TrackerCommand.php:133-138 | appends one console write when a container is set, and fails with 'Container not set' without writing otherwise |
| `Command.TrackerCommand.OutOK` | cli/CliApp/Command/TrackerCommand.php:180-183 | writes `<ok>ok</ok>` and a new line, under the same condition as `Out` |
| `Command.TrackerCommand.LogOut` | cli/CliApp/Command/TrackerCommand.php:165-171 | hands the logger the text with its markup stripped, or fails with 'Container not set' |
| `Command.TrackerCommand.SelectFromMenu` | cli/CliApp/Command/TrackerCommand.php:313-350 | prints the whole menu screen and decides as `Selection` with id 0; stores the project only on success |
| `Command.TrackerCommand.SelectById` | cli/CliApp/Command/TrackerCommand.php:351-367 | the scan with `break` decides as `Selection` with the explicit id; a miss leaves the field as it was |
| `Command.TrackerCommand.Announce` | cli/CliApp/Command/TrackerCommand.php:369-371 | logs the selected title's processing line with its markup stripped, and records the selected id in the request input |
| `Command.TrackerCommand.SelectProject` | cli/CliApp/Command/TrackerCommand.php:295-374 | with no container it fails with 'Container not set' and changes nothing. Otherwise the outcome is `Selection`; the menu screen is printed only when there is no explicit id; on success the project is stored, its stripped processing line is logged and its id is recorded in the request input; on failure none of those change |

## Left out

- The database query of lines 298-305 is not modelled. The project list is a parameter of `SelectProject`, and a NULL column is read as the empty string.
- The service lookups of the container (`getApplication`, `getLogger`, `get('db')`) are not modelled. The container is a value that is either set or not, and what its services do is not part of this model.
- Console input (`in()`) is a parameter: the line the operator types. Console output is the sequence `console` of `out()` calls. The menu lines are appended in one step after `BuildMenu` runs, rather than interleaved with the loop. The resulting sequence is the same, because nothing else writes in between.
- `debugOut` is not modelled. It writes through the application's verbose mode, which is not part of this model.
- `displayGitHubRateLimit` and `getProgressBar` are not modelled. Each only forwards to an application method whose code is not part of this model.
- The logger is not modelled: its `info` level and its output. `logged` holds the stripped strings it receives. These come from the container's logger, not from the `logger` field set by `SetLogger`, which the class never reads.
- Line 371 writes through `$this->application`, a property the class does not declare and no magic `__get` supplies. Unless a subclass sets that property, the call there is made on null and fails after the project has been logged. The model records the selected id in the field `inputProject` and does not model that failure.
- `execute()` is abstract and the field `usePBar` is never read, so neither is modelled. `TrackerCommandOption` is not part of this model; `CommandOption` carries its long name, short name and description.
- `ExplicitId`: `getInt` filtering is not modelled. The `--project` and `-p` inputs are taken as already-cast integers, and the loose `==` between the database's string id and the integer is taken as integer equality.
- `PhpString.IntCast`: integer overflow is not modelled, and neither is the exponent form (`"1e3"`) that newer PHP versions also accept. Leading whitespace beyond what `trim()` removes is not skipped.
- `Markup.StripTags`: the string is a sequence of characters, where PCRE without the `u` flag works on bytes. The pattern is plain ASCII, so the matches are the same.
