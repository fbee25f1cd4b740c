# Oak shell: commands, tree routines and repository gateway

A Dafny model of the command layer of a small interactive shell over an
Apache Jackrabbit Oak content repository. It covers:

- the `Commands` verb table, with its case-insensitive lookup and its
  comparator;
- the command handlers `help`, `ls`, `cat`, `add`, `rm`, `up` and `colour`,
  each with its argument parser, its output and its exit codes;
- the `BunchOfColours` repository initialiser;
- the recursive `WalkTree.walk` dump;
- the `Repository` gateway: its two initialisers, its `close` guard and its
  lazily created shared instance.

The content repository itself (JCR and Oak) is not code of this system. The
model represents it by:

- `JcrTree`, a value model of the tree. Nodes carry ordered properties and
  ordered children. Path operations succeed, or fail with the message a
  `RepositoryException` would carry.
- `Jcr`, the objects the commands hold: a `ContentRepository` that hands out
  sessions, a `Session` with a transient view that `save` commits and
  `logout` ends, and a `NodeBuilder`.

Ghost counters of logins and logouts make "the session is always logged out"
a postcondition.

Java's runtime behaviour is written out in the `Java` module. `null`
becomes `Option` for arrays, a nullable class for writers and repositories,
and `Null` for results. A thrown exception is `Throw`/`Abrupt`. The module
also models `toUpperCase`/`toLowerCase` on the letters the shell uses,
`String.trim`, `String.split` (which drops trailing empty strings),
`Collectors.joining` and `String.compareTo`.

Modules, one per file:

- `java.dfy`: `Java`
- `jcr_tree.dfy`: `JcrTree`
- `jcr_session.dfy`: `Jcr`
- `commands.dfy`: `Commands`
- `help_command.dfy`: `HelpCommand`
- `list_command.dfy`: `ListCommand`
- `cat_command.dfy`: `CatCommand`
- `add_command.dfy`: `AddCommand`
- `rm_command.dfy`: `RmCommand`
- `up_command.dfy`: `UpCommand`
- `colour_command.dfy`: `ColourCommand`
- `bunch_of_colours.dfy`: `BunchOfColours`
- `walk_tree.dfy`: `WalkTree`
- `repository.dfy`: `OakRepository`

Each `execute` takes the repository that `Repository.getRepo()` would hand
out, a `ContentRepository?`. A null one is the repository that could not be
built.

## Model

Source paths are relative to the repository root.

| member | source | states |
|---|---|---|
| Java.Writer.Println | src/main/java/to/adapt/from02oak/console/commands/AddCommand.java:80 | println appends exactly one line to what was written |
| Java.ToUpper | src/main/java/to/adapt/from02oak/console/commands/Commands.java:80 | upper-casing keeps the length and maps each character on its own |
| Java.ToLower | src/main/java/to/adapt/from02oak/repository/initialisers/BunchOfColours.java:42 | lower-casing keeps the length and maps each character on its own |
| Java.ToUpperIdempotent | src/main/java/to/adapt/from02oak/console/commands/Commands.java:46 | upper-casing twice is upper-casing once |
| Java.TrimStart | src/main/java/to/adapt/from02oak/console/commands/UpCommand.java:183-185 | the result is no longer than the input and starts with a non-blank character |
| Java.TrimStartIsSuffix | src/main/java/to/adapt/from02oak/console/commands/UpCommand.java:183-185 | stripping leading characters leaves a suffix of the input |
| Java.TrimEnd | src/main/java/to/adapt/from02oak/console/commands/UpCommand.java:183-185 | the result is no longer than the input and ends with a non-blank character |
| Java.TrimEndIsPrefix | src/main/java/to/adapt/from02oak/console/commands/UpCommand.java:183-185 | stripping trailing characters leaves a prefix of the input |
| Java.TrimmedIsFixed | src/main/java/to/adapt/from02oak/console/commands/UpCommand.java:183-185 | trim leaves a string without blanks at either end unchanged |
| Java.TrimPadded | src/main/java/to/adapt/from02oak/console/commands/UpCommand.java:183-185 | trimming a trimmed string behind blank padding gives the string back |
| Java.TrimIsTrimmed | src/main/java/to/adapt/from02oak/console/commands/UpCommand.java:183-185 | the result of trim has no blank at either end |
| Java.TrimKeepsOut | src/main/java/to/adapt/from02oak/console/commands/UpCommand.java:183-185 | a character absent from a string is absent from its trim |
| Java.SplitAll | src/main/java/to/adapt/from02oak/console/commands/UpCommand.java:183 | splitting on a character always yields at least one piece |
| Java.DropTrailingEmpty | src/main/java/to/adapt/from02oak/console/commands/UpCommand.java:183 | String.split's last step: the longest prefix that does not end in an empty piece |
| Java.SplitAllPrefix | src/main/java/to/adapt/from02oak/console/commands/UpCommand.java:183 | a separator-free prefix fuses with the first piece of the rest |
| Java.SplitAllJoin | src/main/java/to/adapt/from02oak/console/commands/UpCommand.java:183 | splitting a join of separator-free pieces gives the pieces back |
| Java.CompareToZeroIff | src/main/java/to/adapt/from02oak/console/commands/Commands.java:46 | String.compareTo is zero exactly on equal strings |
| Java.CompareToAntisymmetric | src/main/java/to/adapt/from02oak/console/commands/Commands.java:46 | swapping the operands of compareTo negates it |
| Java.CompareToTransitive | src/main/java/to/adapt/from02oak/console/commands/Commands.java:46 | compareTo's "less than" is transitive |
| JcrTree.ChildIndex | src/main/java/to/adapt/from02oak/console/commands/ListCommand.java:60 | a found index holds the first child of that name; none means no child has the name |
| JcrTree.ChildPathOf | src/main/java/to/adapt/from02oak/console/commands/ListCommand.java:60-68 | a child's path is its parent's path with the name as one more segment |
| JcrTree.DepthOfPath | src/main/java/to/adapt/from02oak/WalkTree.java:42-43 | the depth of a node's path is its number of segments, so the root is at 0 |
| JcrTree.PathOfParses | src/main/java/to/adapt/from02oak/console/commands/CatCommand.java:60 | the path of a node parses back to its segments |
| JcrTree.LookupReplaceAt | src/main/java/to/adapt/from02oak/console/commands/UpCommand.java:92-106 | after a node is replaced at a path, the path reaches the new node and the root keeps its name |
| JcrTree.ChildIndexUpdate | src/main/java/to/adapt/from02oak/console/commands/UpCommand.java:92-106 | replacing a child by a node of the same name keeps where that name is found |
| JcrTree.ChildIndexAppend | src/main/java/to/adapt/from02oak/console/commands/AddCommand.java:76 | a child appended under a new name is found at the end |
| JcrTree.LookupAppend | src/main/java/to/adapt/from02oak/console/commands/AddCommand.java:76 | following a+b is following a and then b |
| JcrTree.GetProperty | src/main/java/to/adapt/from02oak/console/commands/UpCommand.java:93 | a property is absent exactly when no property has that name |
| JcrTree.PropertyIndex | src/main/java/to/adapt/from02oak/console/commands/UpCommand.java:101-104 | a found index holds the first property of that name; none means there is no such property |
| JcrTree.WithoutProperty | src/main/java/to/adapt/from02oak/console/commands/UpCommand.java:93 | after the removal no property has the removed name |
| JcrTree.GetPropertyAt | src/main/java/to/adapt/from02oak/console/commands/UpCommand.java:93 | the first property of a name is the one read |
| JcrTree.WithPropertyReadsBack | src/main/java/to/adapt/from02oak/console/commands/UpCommand.java:101-104 | after setProperty the property reads back as the value set |
| JcrTree.DistinctChildIndex | src/main/java/to/adapt/from02oak/console/commands/ListCommand.java:65-73 | among siblings with distinct names, each child is found at its own index |
| JcrTree.AddNodeThenGet | src/main/java/to/adapt/from02oak/console/commands/AddCommand.java:76-77 | a node added under an existing parent is found at the absolute path, with its primary type and no children |
| JcrTree.SetPropertyThenGet | src/main/java/to/adapt/from02oak/console/commands/UpCommand.java:98-106 | after a property is set, the node at the path carries the value |
| JcrTree.RemovePropertyThenGet | src/main/java/to/adapt/from02oak/console/commands/UpCommand.java:92-94 | after a property is removed, the node at the path no longer has it |
| JcrTree.RemoveNodeThenGet | src/main/java/to/adapt/from02oak/console/commands/RmCommand.java:53-54 | in a well-formed tree, neither the removed node nor anything below it resolves any more |
| JcrTree.RemovedSubtreeGone | src/main/java/to/adapt/from02oak/console/commands/RmCommand.java:53 | dropping a child from its parent makes every path through it unresolvable |
| JcrTree.RemovedChildGone | src/main/java/to/adapt/from02oak/console/commands/RmCommand.java:53 | among distinct names, a dropped child's name is no longer found |
| JcrTree.WellFormedLookup | src/main/java/to/adapt/from02oak/console/commands/ListCommand.java:60 | every node of a well-formed tree is well-formed |
| JcrTree.MatchesSound | src/main/java/to/adapt/from02oak/console/commands/ColourCommand.java:63-66 | every path the colour query returns resolves to a node that carries the colour |
| JcrTree.MatchesComplete | src/main/java/to/adapt/from02oak/console/commands/ColourCommand.java:63-66 | every node that carries the colour is among the query's paths |
| Jcr.ContentRepository.constructor | src/main/java/to/adapt/from02oak/repository/Repository.java:126 | a fresh repository holds the initialised tree and has issued no sessions |
| Jcr.ContentRepository.Login | src/main/java/to/adapt/from02oak/repository/Repository.java:199-205 | login gives a fresh, open session over the saved tree and counts one login |
| Jcr.Session.GetNode | src/main/java/to/adapt/from02oak/console/commands/CatCommand.java:60 | getNode resolves the absolute path in the session's view, or fails with the path |
| Jcr.Session.AddNode | src/main/java/to/adapt/from02oak/console/commands/AddCommand.java:76 | addNode on the root changes only the transient view; a failure leaves the view as it was |
| Jcr.Session.RemoveNode | src/main/java/to/adapt/from02oak/console/commands/RmCommand.java:53 | remove changes only the transient view; a failure leaves it as it was |
| Jcr.Session.SetProperty | src/main/java/to/adapt/from02oak/console/commands/UpCommand.java:98-105 | setProperty changes only the transient view; a failure leaves it as it was |
| Jcr.Session.RemoveProperty | src/main/java/to/adapt/from02oak/console/commands/UpCommand.java:92-93 | removing a property changes only the transient view; a failure leaves it as it was |
| Jcr.Session.Query | src/main/java/to/adapt/from02oak/console/commands/ColourCommand.java:63-66 | the rows of the query over the session's view |
| Jcr.Session.Save | src/main/java/to/adapt/from02oak/console/commands/AddCommand.java:77 | save makes the transient view the repository's tree |
| Jcr.Session.Logout | src/main/java/to/adapt/from02oak/console/commands/AddCommand.java:82-86 | logout ends the session, drops unsaved changes and counts one logout |
| Jcr.ColourQueried | src/main/java/to/adapt/from02oak/console/commands/ColourCommand.java:58 | a recognised statement is prefix, colour and closing quote, with no quote inside the colour |
| Jcr.NodeBuilder.constructor | src/main/java/to/adapt/from02oak/repository/initialisers/BunchOfColours.java:47 | the builder starts on the given tree |
| Commands.UpperNameIsConstantName | src/main/java/to/adapt/from02oak/console/commands/Commands.java:32-39 | each declared name, upper-cased, is its constant's identifier |
| Commands.ValueOf | src/main/java/to/adapt/from02oak/console/commands/Commands.java:80 | Enum.valueOf finds the constant with exactly that identifier, or none exists |
| Commands.Parse | src/main/java/to/adapt/from02oak/console/commands/Commands.java:76-84 | null throws NPE, an empty array throws AIOOBE, args[0] picks the verb whose name it equals ignoring case (iff), and no match throws IllegalArgumentException (iff); null is never returned |
| Commands.ParseEveryVerb | src/main/java/to/adapt/from02oak/console/commands/Commands.java:79-80 | every verb, typed in any case, resolves to itself whatever tokens follow |
| Commands.KeyInjective | src/main/java/to/adapt/from02oak/console/commands/Commands.java:46 | two commands have the same upper-cased name exactly when they are the same command |
| Commands.Compare | src/main/java/to/adapt/from02oak/console/commands/Commands.java:43-47 | a null operand throws NPE (iff); otherwise the result is compareTo of the upper-cased names |
| Commands.OrderZeroIff | src/main/java/to/adapt/from02oak/console/commands/Commands.java:46 | the comparator is zero exactly on equal commands |
| Commands.OrderAntisymmetric | src/main/java/to/adapt/from02oak/console/commands/Commands.java:46 | swapping the operands negates the comparison |
| Commands.OrderTransitive | src/main/java/to/adapt/from02oak/console/commands/Commands.java:46 | the comparator's order is transitive |
| Commands.HelpAfterExit | src/test/java/to/adapt/from02oak/console/commands/CommandsTest.java:62-67 | HELP > EXIT, EXIT < HELP and HELP == HELP |
| HelpCommand.IsExit | src/main/java/to/adapt/from02oak/console/commands/HelpCommand.java:45-48 | no handler here asks the shell to exit, help included; only EXIT's own answer can |
| HelpCommand.SortedCons | src/main/java/to/adapt/from02oak/console/commands/HelpCommand.java:32 | an element below every element of a sorted sequence can go in front of it |
| HelpCommand.SortedTail | src/main/java/to/adapt/from02oak/console/commands/HelpCommand.java:32 | the tail of a sorted sequence is sorted and lies above the head |
| HelpCommand.BelowAll | src/main/java/to/adapt/from02oak/console/commands/HelpCommand.java:32 | what lies below an element and below a whole sequence lies below every element of their union |
| HelpCommand.InsertSorted | src/main/java/to/adapt/from02oak/console/commands/HelpCommand.java:32 | inserting into a sorted sequence keeps it sorted and adds exactly that element |
| HelpCommand.SortSortsAndPermutes | src/main/java/to/adapt/from02oak/console/commands/HelpCommand.java:32 | the sort yields a sorted permutation of its input |
| HelpCommand.HeadLeast | src/main/java/to/adapt/from02oak/console/commands/HelpCommand.java:32 | a sorted sequence starts with its least element |
| HelpCommand.SortedSameHead | src/main/java/to/adapt/from02oak/console/commands/HelpCommand.java:32 | two sorted sequences with the same members start with the same element |
| HelpCommand.TailMembers | src/main/java/to/adapt/from02oak/console/commands/HelpCommand.java:32 | the tail of a sorted sequence holds exactly the members other than the head |
| HelpCommand.SortedUnique | src/main/java/to/adapt/from02oak/console/commands/HelpCommand.java:32 | two strictly sorted sequences with the same members are equal |
| HelpCommand.Listed | src/main/java/to/adapt/from02oak/console/commands/HelpCommand.java:32 | the help order is sorted by upper-cased name and is a permutation of Commands.values() |
| HelpCommand.SortedByAdjacent | src/main/java/to/adapt/from02oak/console/commands/HelpCommand.java:32 | ordered neighbours make the whole sequence sorted |
| HelpCommand.AlphabeticalFirstHalf | src/main/java/to/adapt/from02oak/console/commands/HelpCommand.java:32 | ADD < CAT < COLOUR < EXIT < HELP under the comparator |
| HelpCommand.AlphabeticalSecondHalf | src/main/java/to/adapt/from02oak/console/commands/HelpCommand.java:32 | HELP < LS < RM < UP under the comparator |
| HelpCommand.AlphabeticalSorted | src/main/java/to/adapt/from02oak/console/commands/HelpCommand.java:32 | add, cat, colour, exit, help, ls, rm, up is in comparator order |
| HelpCommand.AlphabeticalHoldsAll | src/main/java/to/adapt/from02oak/console/commands/HelpCommand.java:32 | every command is in the declared list and in that arrangement |
| HelpCommand.OnlyArrangement | src/main/java/to/adapt/from02oak/console/commands/HelpCommand.java:32 | any sorted permutation of the commands is that arrangement |
| HelpCommand.HelpOrder | src/main/java/to/adapt/from02oak/console/commands/HelpCommand.java:32 | help lists the commands as add, cat, colour, exit, help, ls, rm, up |
| HelpCommand.Lines | src/main/java/to/adapt/from02oak/console/commands/HelpCommand.java:32-35 | one printed line per command |
| HelpCommand.LinesSnoc | src/main/java/to/adapt/from02oak/console/commands/HelpCommand.java:32-35 | one more command adds its line at the end |
| HelpCommand.LinesAt | src/main/java/to/adapt/from02oak/console/commands/HelpCommand.java:34 | the i-th line is "<name> - [<description>]" of the i-th command |
| HelpCommand.Screen | src/main/java/to/adapt/from02oak/console/commands/HelpCommand.java:32-35 | exactly one line per declared command |
| HelpCommand.ScreenContents | src/main/java/to/adapt/from02oak/console/commands/HelpCommand.java:32-35 | the i-th line is "<name> - [<description>]" of the i-th command in alphabetical order |
| HelpCommand.PrintAll | src/main/java/to/adapt/from02oak/console/commands/HelpCommand.java:32-35 | the forEach prints exactly the lines, in order |
| HelpCommand.Execute | src/main/java/to/adapt/from02oak/console/commands/HelpCommand.java:31-38 | help prints the help screen whatever the arguments and returns 0 |
| ListCommand.Analysed | src/main/java/to/adapt/from02oak/console/commands/ListCommand.java:103-119 | a null writer or array throws NPE (iff); fewer than two tokens give null (iff); otherwise args[1..] in order |
| ListCommand.AnalyseCommandLine | src/main/java/to/adapt/from02oak/console/commands/ListCommand.java:103-119 | the copying loop computes exactly that result |
| ListCommand.Names | src/main/java/to/adapt/from02oak/console/commands/ListCommand.java:65-73 | one name per child |
| ListCommand.NamesAt | src/main/java/to/adapt/from02oak/console/commands/ListCommand.java:65-73 | the k-th line is the k-th child's name |
| ListCommand.NamesSnoc | src/main/java/to/adapt/from02oak/console/commands/ListCommand.java:65-73 | one more child adds its name at the end |
| ListCommand.Listing | src/main/java/to/adapt/from02oak/console/commands/ListCommand.java:61-74 | a childless node prints exactly "-- No children"; otherwise each child's name, in order |
| ListCommand.ListedNamesLeadToChildren | src/main/java/to/adapt/from02oak/console/commands/ListCommand.java:60-73 | in a well-formed tree each listed name, appended to the path, resolves to exactly the child listed there |
| ListCommand.PrintNames | src/main/java/to/adapt/from02oak/console/commands/ListCommand.java:65-73 | the loop prints exactly the children's names, in order |
| ListCommand.Execute | src/main/java/to/adapt/from02oak/console/commands/ListCommand.java:45-105 | a parse failure prints the error and usage and returns 1; only the first path is listed; the listing returns 0 and a lookup error prints "Error while listing path p - m" and returns 1; a null array or a null repository throws NPE with nothing printed; one session is opened and never logged out; the tree is unchanged |
| CatCommand.Analysed | src/main/java/to/adapt/from02oak/console/commands/CatCommand.java:95-110 | null throws NPE (iff); an option escapes as OptionException (iff); no tokens or only the command word give null (iff); otherwise the tokens after the command word, in order |
| CatCommand.AnalyseCommandLine | src/main/java/to/adapt/from02oak/console/commands/CatCommand.java:95-110 | the copy-then-remove(0) loop computes exactly that result |
| CatCommand.PropertyLines | src/main/java/to/adapt/from02oak/console/commands/CatCommand.java:61-80 | one printed line per property |
| CatCommand.PropertyLinesSnoc | src/main/java/to/adapt/from02oak/console/commands/CatCommand.java:61-80 | one more property adds its line at the end |
| CatCommand.PropertyLineAt | src/main/java/to/adapt/from02oak/console/commands/CatCommand.java:64-75 | the k-th line is "- name: v" for a single value and "- name: [v1, v2, ...]" joined by ", " for several |
| CatCommand.ShownValuesParseBack | src/main/java/to/adapt/from02oak/console/commands/CatCommand.java:64-75 | the bracketed list cat shows, read back by up's value splitting, gives the values again (trimmed, comma-free values) |
| CatCommand.PrintProperties | src/main/java/to/adapt/from02oak/console/commands/CatCommand.java:61-80 | the loop prints exactly the property lines, in order |
| CatCommand.Execute | src/main/java/to/adapt/from02oak/console/commands/CatCommand.java:46-87 | an analysis failure prints the error and help and returns 1; otherwise only the first path is shown, and the properties or the lookup error are printed with 0 returned in both cases; a null repository throws NPE with nothing printed; the session is never logged out; the tree is unchanged |
| AddCommand.MakeOptions | src/main/java/to/adapt/from02oak/console/commands/AddCommand.java:53-60 | a leading slash is removed, exactly one; any other path is kept verbatim; the type is kept |
| AddCommand.OnlyOneSlashStripped | src/main/java/to/adapt/from02oak/console/commands/AddCommand.java:54-56 | "//a" becomes "/a" |
| AddCommand.BothSpellingsAgree | src/test/java/to/adapt/from02oak/console/commands/AddCommandTest.java:50-58 | "/p" and "p" give the same options |
| AddCommand.Parsed | src/main/java/to/adapt/from02oak/console/commands/AddCommand.java:96-108 | a null writer or array throws NPE (iff); fewer than three tokens give null (iff); otherwise the options come from args[1] and args[2] |
| AddCommand.ExtraTokensIgnored | src/main/java/to/adapt/from02oak/console/commands/AddCommand.java:107 | tokens after the primary type change nothing |
| AddCommand.ParseCommandLine | src/main/java/to/adapt/from02oak/console/commands/AddCommand.java:96-108 | returns that result, printing the error and usage exactly when it is null |
| AddCommand.AddedNodeIsFound | src/main/java/to/adapt/from02oak/console/commands/AddCommand.java:76-77 | a node the command added is found at "/"+path with the requested primary type and no children |
| AddCommand.Execute | src/main/java/to/adapt/from02oak/console/commands/AddCommand.java:63-98 | a parse failure returns 1 and touches nothing; a null array throws NPE with nothing printed; a null repository throws NPE with nothing printed; otherwise the node is added and saved with 0 returned, or the error is printed, nothing saved and 1 returned; the opened session is always logged out |
| RmCommand.Parsed | src/main/java/to/adapt/from02oak/console/commands/RmCommand.java:68-78 | a null writer or array throws NPE (iff); fewer than two tokens give null (iff); otherwise the path is args[1] verbatim |
| RmCommand.RelativePathKept | src/main/java/to/adapt/from02oak/console/commands/RmCommand.java:77 | no slash is added or stripped, so a relative path reaches the store and fails |
| RmCommand.ParseCommandLine | src/main/java/to/adapt/from02oak/console/commands/RmCommand.java:68-78 | returns that result, printing the error and usage exactly when it is null |
| RmCommand.Execute | src/main/java/to/adapt/from02oak/console/commands/RmCommand.java:42-70 | a parse failure returns 1; a null array throws NPE with nothing printed; a null repository is caught as an exception ("... null" printed, 1 returned); otherwise the removal is saved with 0 returned, or the error is printed, nothing saved and 1 returned; the opened session is always logged out |
| UpCommand.SplitAllNoSeparator | src/main/java/to/adapt/from02oak/console/commands/UpCommand.java:183 | no split piece contains the separator |
| UpCommand.ValuesAreTrimmedPieces | src/main/java/to/adapt/from02oak/console/commands/UpCommand.java:183-185 | every edit value is trimmed and comma-free |
| UpCommand.ValuesOfOne | src/main/java/to/adapt/from02oak/console/commands/UpCommand.java:183-185 | a comma-free token gives the one trimmed value |
| UpCommand.Padded | src/main/java/to/adapt/from02oak/console/commands/UpCommand.java:183-185 | one padded piece per value |
| UpCommand.JoinPadded | src/main/java/to/adapt/from02oak/console/commands/UpCommand.java:183-185 | joining padded pieces with "," is a space and then the ", " join |
| UpCommand.JoinAsPieces | src/main/java/to/adapt/from02oak/console/commands/UpCommand.java:183-185 | a ", " join is a "," join of the first value and the padded rest |
| UpCommand.CommaInJoin | src/main/java/to/adapt/from02oak/console/commands/UpCommand.java:183 | a join of two or more values holds a comma |
| UpCommand.SplitJoinedValues | src/main/java/to/adapt/from02oak/console/commands/UpCommand.java:183 | split(",") of a ", " join gives the first value and the padded rest |
| UpCommand.TrimPieces | src/main/java/to/adapt/from02oak/console/commands/UpCommand.java:184 | trimming those pieces gives trimmed values back |
| UpCommand.ValuesOfTrimmed | src/main/java/to/adapt/from02oak/console/commands/UpCommand.java:183-185 | a trimmed comma-free token is its own single value |
| UpCommand.ValuesOfLongJoin | src/main/java/to/adapt/from02oak/console/commands/UpCommand.java:183-185 | the values of a ", " join of two or more trimmed comma-free values are the values |
| UpCommand.ValuesOfJoin | src/main/java/to/adapt/from02oak/console/commands/UpCommand.java:183-185 | round trip: the values of the ", " join of any non-empty list of trimmed comma-free values are that list |
| UpCommand.PaddedAt | src/main/java/to/adapt/from02oak/console/commands/UpCommand.java:183-185 | the i-th padded piece is a space and then the i-th value |
| UpCommand.ValuesExampleSingle | src/test/java/to/adapt/from02oak/console/commands/UpCommandTest.java:88-95 | "helloValue" gives ["helloValue"] |
| UpCommand.ValuesExamplePair | src/test/java/to/adapt/from02oak/console/commands/UpCommandTest.java:97-106 | "value0, value1" gives ["value0", "value1"] |
| UpCommand.Parsed | src/main/java/to/adapt/from02oak/console/commands/UpCommand.java:129-192 | a null writer or array throws NPE (iff); the path is the first non-option after the command word; DELETE iff --delete and a path, with its name and no values; EDIT iff --edit, no --delete, a path and a value token, with the split values |
| UpCommand.ErrorsAreReported | src/main/java/to/adapt/from02oak/console/commands/UpCommand.java:136-191 | the result is null exactly when a reason is printed, and the usage banner always follows the reason |
| UpCommand.PrintHelp | src/main/java/to/adapt/from02oak/console/commands/UpCommand.java:194-205 | printHelp prints the usage banner |
| UpCommand.ParseCommandLine | src/main/java/to/adapt/from02oak/console/commands/UpCommand.java:129-192 | returns that result and prints exactly the reason lines |
| UpCommand.PropertyValue | src/main/java/to/adapt/from02oak/console/commands/UpCommand.java:99-105 | exactly one value gives a single-valued property (iff); otherwise a multi-valued one with the values in order |
| UpCommand.ApplyThenGet | src/main/java/to/adapt/from02oak/console/commands/UpCommand.java:89-107 | after a successful edit the node reads back the value; after a delete the property is gone |
| UpCommand.Execute | src/main/java/to/adapt/from02oak/console/commands/UpCommand.java:79-131 | a parse failure prints its reason, returns 1 and touches nothing; a null array throws NPE with nothing printed; a null repository throws NPE with nothing printed; otherwise the instruction is applied and saved with 0 returned, or the error is printed, nothing saved and 1 returned; the opened session is always logged out |
| ColourCommand.Statement | src/main/java/to/adapt/from02oak/console/commands/ColourCommand.java:57-58 | a quote-free colour gives the colour-equality statement for it; a colour with a quote, inserted unescaped, gives no such statement |
| ColourCommand.QuotedColourRejected | src/main/java/to/adapt/from02oak/console/commands/ColourCommand.java:58 | a quote inside the colour breaks the statement's shape |
| ColourCommand.Rows | src/main/java/to/adapt/from02oak/console/commands/ColourCommand.java:68-77 | one printed row per result |
| ColourCommand.RowsAt | src/main/java/to/adapt/from02oak/console/commands/ColourCommand.java:72 | the k-th row is "  - " and the k-th path |
| ColourCommand.RowsSnoc | src/main/java/to/adapt/from02oak/console/commands/ColourCommand.java:69-77 | one more result adds its row at the end |
| ColourCommand.ReportedNodesHaveColour | src/main/java/to/adapt/from02oak/console/commands/ColourCommand.java:63-77 | in a well-formed tree each printed row names a node that carries the colour |
| ColourCommand.ColouredNodesReported | src/main/java/to/adapt/from02oak/console/commands/ColourCommand.java:63-77 | every node that carries a quote-free colour is printed as a row |
| ColourCommand.NotFoundIffNoColouredNode | src/main/java/to/adapt/from02oak/console/commands/ColourCommand.java:68-80 | "No nodes found for colour: c" is printed exactly when no node carries c |
| ColourCommand.PrintRows | src/main/java/to/adapt/from02oak/console/commands/ColourCommand.java:69-77 | the loop prints exactly the rows, in order |
| ColourCommand.Execute | src/main/java/to/adapt/from02oak/console/commands/ColourCommand.java:46-92 | a null writer or array throws NPE, a null array with nothing printed; fewer than two tokens print the usage and return 1; a null repository throws NPE; otherwise the rows, the not-found line or the error are printed, 0 is returned and the session logged out; the tree is unchanged |
| BunchOfColours.LoweredConstants | src/main/java/to/adapt/from02oak/repository/initialisers/BunchOfColours.java:36-42 | the enum constants lower-cased are red, green, blue |
| BunchOfColours.RandomColour | src/main/java/to/adapt/from02oak/repository/initialisers/BunchOfColours.java:41-43 | the drawn colour is one of red, green and blue |
| BunchOfColours.Digit | src/main/java/to/adapt/from02oak/repository/initialisers/BunchOfColours.java:54 | a digit below ten is a decimal digit character |
| BunchOfColours.SeedName | src/main/java/to/adapt/from02oak/repository/initialisers/BunchOfColours.java:54 | "n%03d" is "n" and then three digits, a valid node name |
| BunchOfColours.SeedNameExamples | src/main/java/to/adapt/from02oak/repository/initialisers/BunchOfColours.java:54 | 0, 7, 42 and 99 give n000, n007, n042 and n099 |
| BunchOfColours.SeedNameInjective | src/main/java/to/adapt/from02oak/repository/initialisers/BunchOfColours.java:54 | different indices give different names |
| BunchOfColours.SeedNamesDistinct | src/main/java/to/adapt/from02oak/repository/initialisers/BunchOfColours.java:53-57 | the seeded nodes' names are valid and pairwise distinct |
| BunchOfColours.Initialize | src/main/java/to/adapt/from02oak/repository/initialisers/BunchOfColours.java:46-58 | with unitedcolours present nothing changes; otherwise unitedcolours is appended with exactly the 100 seeded nodes for some draw of colours |
| BunchOfColours.SeedingIsGuarded | src/main/java/to/adapt/from02oak/repository/initialisers/BunchOfColours.java:48-52 | after seeding the guard holds, so a second run adds nothing |
| BunchOfColours.SeededWellFormed | src/main/java/to/adapt/from02oak/repository/initialisers/BunchOfColours.java:52-57 | seeding keeps a well-formed tree well-formed |
| BunchOfColours.SeededLookup | src/main/java/to/adapt/from02oak/repository/initialisers/BunchOfColours.java:53-57 | the i-th seeded node is the child n<i> of unitedcolours |
| BunchOfColours.SeedNodeFound | src/main/java/to/adapt/from02oak/repository/initialisers/BunchOfColours.java:53-57 | /unitedcolours/n<i> resolves to a childless node of type oak:Unstructured whose colour is red, green or blue |
| BunchOfColours.SeedNodeQueried | src/main/java/to/adapt/from02oak/repository/initialisers/BunchOfColours.java:56 | the colour query for a seeded node's colour finds that node |
| WalkTree.Bars | src/main/java/to/adapt/from02oak/WalkTree.java:51-53 | the prefix of depth n is exactly n bars |
| WalkTree.BuildBars | src/main/java/to/adapt/from02oak/WalkTree.java:47-53 | the loop builds exactly depth bars |
| WalkTree.RootHeader | src/main/java/to/adapt/from02oak/WalkTree.java:42-49 | the root's path is "/", its prefix is empty and its line is "/ name" |
| WalkTree.HeaderShape | src/main/java/to/adapt/from02oak/WalkTree.java:42-57 | on a node's path the prefix has one bar per segment; the root line is "/ name", any other is bars then "-> name" |
| WalkTree.PropertyLines | src/main/java/to/adapt/from02oak/WalkTree.java:60-67 | one logged line per property |
| WalkTree.PropertyLinesAt | src/main/java/to/adapt/from02oak/WalkTree.java:60-63 | the k-th line is the node's prefix, then "- name: " and the value; a multi-valued one shows as "[v1, v2]", the way SLF4J formats an array argument |
| WalkTree.PropertyLinesSnoc | src/main/java/to/adapt/from02oak/WalkTree.java:60-67 | one more property adds its line at the end |
| WalkTree.FaultLines | src/main/java/to/adapt/from02oak/WalkTree.java:40-60 | a node failing in getPath or getName has logged nothing; one failing in getProperties has logged its line; one failing in getNodes has logged its line and its property lines |
| WalkTree.ChildPart | src/main/java/to/adapt/from02oak/WalkTree.java:70-76 | a child's part is its walk when it does not fail, otherwise what it logged before the fault and then the error line |
| WalkTree.ChildrenLinesAppend | src/main/java/to/adapt/from02oak/WalkTree.java:70-76 | the children's log splits along any split of the children |
| WalkTree.ChildFailureIsolated | src/main/java/to/adapt/from02oak/WalkTree.java:70-76 | the log is the siblings before, child k's part, then the siblings after; a failing child's part is what it logged before the fault and then the error line, just the error line when it fails on read |
| WalkTree.ChildrenLinesContain | src/main/java/to/adapt/from02oak/WalkTree.java:70-76 | any line of one child's part is in the children's log |
| WalkTree.WalkNamesEveryNodeFrom | src/main/java/to/adapt/from02oak/WalkTree.java:40-77 | when no node fails, the walk of a node names every node below it |
| WalkTree.WalkNamesEveryNode | src/main/java/to/adapt/from02oak/WalkTree.java:40-77 | when no node fails, the walk from the root has a line for every node of the tree |
| WalkTree.WalkIsPreOrder | src/main/java/to/adapt/from02oak/WalkTree.java:47-76 | a node's line comes first, then its property lines with one bar per segment, before its children |
| WalkTree.LogHeader | src/main/java/to/adapt/from02oak/WalkTree.java:46-57 | logs the node's line and returns the prefix its properties reuse |
| WalkTree.LogProperties | src/main/java/to/adapt/from02oak/WalkTree.java:60-67 | the loop logs exactly the property lines, in order, each value rendered as SLF4J renders it |
| WalkTree.Walk | src/main/java/to/adapt/from02oak/WalkTree.java:40-77 | a null node throws NPE and logs nothing; a failing node throws RepositoryException having logged what it reached before the fault; otherwise the walk's lines are logged |
| WalkTree.WalkNode | src/main/java/to/adapt/from02oak/WalkTree.java:42-76 | a node failing in getPath/getName, getProperties or getNodes throws at that point, keeping its line and property lines logged up to there; otherwise its line, its properties and its children's walks are logged |
| WalkTree.WalkChildren | src/main/java/to/adapt/from02oak/WalkTree.java:70-76 | each child's walk is logged, or what it logged before failing and then the error line, and the loop goes on |
| OakRepository.InitializeIndex | src/main/java/to/adapt/from02oak/repository/Repository.java:108-121 | the index initialiser leaves exactly the tree the index definition describes |
| OakRepository.IndexGuarded | src/main/java/to/adapt/from02oak/repository/Repository.java:111-114 | with oak:index/colour present, nothing changes |
| OakRepository.IndexDefined | src/main/java/to/adapt/from02oak/repository/Repository.java:118-119 | otherwise oak:index/colour is defined, to be reindexed, over the single property name colour |
| OakRepository.LookupOne | src/main/java/to/adapt/from02oak/repository/Repository.java:111 | a one-segment lookup is the child of that name |
| OakRepository.IndexIdempotent | src/main/java/to/adapt/from02oak/repository/Repository.java:111-119 | running the index initialiser twice is running it once |
| OakRepository.IndexTouchesOnlyOakIndex | src/main/java/to/adapt/from02oak/repository/Repository.java:118-119 | the root's properties and every child other than oak:index stay |
| OakRepository.FreshStoreInitialised | src/main/java/to/adapt/from02oak/repository/Repository.java:99-128 | an empty store ends up with the colour index and the seeded unitedcolours node |
| OakRepository.FileStore.constructor | src/main/java/to/adapt/from02oak/repository/Repository.java:157 | an opened store is not closed |
| OakRepository.FileStore.Close | src/main/java/to/adapt/from02oak/repository/Repository.java:195 | close closes the store |
| OakRepository.InitialiseRepo | src/main/java/to/adapt/from02oak/repository/Repository.java:99-128 | the repository is created over the store after the index initialiser and then BunchOfColours, with no sessions issued |
| OakRepository.Repository.FromStore | src/main/java/to/adapt/from02oak/repository/Repository.java:95-97 | over a supplied store: initialised, with no file store of its own |
| OakRepository.Repository.OnDisk | src/main/java/to/adapt/from02oak/repository/Repository.java:91-93 | over the store it opens on disk: initialised, with its own open file store |
| OakRepository.Repository.Close | src/main/java/to/adapt/from02oak/repository/Repository.java:192-197 | the file store is closed when there is one; otherwise nothing happens |
| OakRepository.Repository.Login | src/main/java/to/adapt/from02oak/repository/Repository.java:199-205 | an open session over the repository's saved tree |
| OakRepository.Registry.constructor | src/main/java/to/adapt/from02oak/repository/Repository.java:85 | the cache starts empty |
| OakRepository.Registry.GetRepo | src/main/java/to/adapt/from02oak/repository/Repository.java:172-181 | a cached instance is returned unchanged; otherwise a new, initialised repository on disk is cached and returned; when the store cannot be opened null is returned and the cache stays empty |
| OakRepository.Registry.SetRepo | src/main/java/to/adapt/from02oak/repository/Repository.java:187-189 | a null repository throws NPE and keeps the cache; anything else replaces it |

## Left out

- The content repository itself. Oak's storage, commits, node types, the property index and JCR-SQL2 evaluation are not code of this system. The tree is a value with deterministic failures: an unresolvable or malformed path, an existing child, a missing property, removing the root. Login and save always succeed. Each failure's message is the failing path or name.
- Jcr.Session.Query: only the one statement shape the shell builds (colour equality with a quote-free literal) is evaluated, returning matches in pre-order. Any other statement is an error. Row order of real query results is not modelled beyond this.
- joptsimple, as used by `cat` and `up`. Its result is an input record (`CatCommand.ParsedArgs`, `UpCommand.OptionSet`): the option values, the non-option tokens, or a parse failure with its message. One consequence is that a `--delete` without its argument is an `OptionError`.
- UpCommand.PrintHelp: only the usage banner is modelled. The option table that joptsimple appends after it is left out.
- The segment store, FileDataStore and directory creation (`Repository.initialiseSegmentStore`): file-system I/O. The store's content on disk is a parameter of `Repository.OnDisk`. Its failing to open with an IOException is the `None` given to `Registry.GetRepo`.
- The `synchronized` of `getRepo`, so the singleton is modelled sequentially. The static field is the `repo` field of `Registry`.
- OakRepository.InitializeIndex: the definition node holds only what the call's arguments fix (name, reindex, the property names). The other properties `IndexUtils` writes (node type, index type) and Oak's built-in content are not modelled. Nor is Oak's index update hook, which on merging the initialisers' commit reindexes, resets `reindex` to false and records a reindex count, so a session sees the definition with `reindex` false rather than the `true` the initialiser writes.
- SLF4J logging, except where it is the output itself (`WalkTree.walk`'s lines and its child error line go to a `Writer`).
- `Console.start` (the read loop), `Command.NO_OP`, `WalkTree.main` and `ExitCommand`. ExitCommand's description and its isExit answer are parameters.
- RmCommand.Execute: the message printed for a null repository is "null", as on a JVM without helpful NullPointerException messages; a newer JVM's message naming the null receiver is not modelled.
- CatCommand.Execute: its writer is non-null. A null writer would make the failure path throw inside println and the success path throw inside printf; that is not modelled.
- CatCommand.PropertyLine: a single value prints the string the Value holds, assuming `Value.toString` is that string. A multi-valued entry whose `getString` fails (printed as `null`) and the per-property error line are not modelled, since reading a value cannot fail in this tree.
- ListCommand.Execute: the "Error printing node" line for a child whose name cannot be read is not modelled, since a name can always be read in this tree.
- WalkTree.PropertyLine: a value is shown by its string form; a multi-valued property's Value[] is shown as SLF4J shows an array argument, "[v1, v2]", with each Value shown by its own toString, which is taken to be its string form. The "Error while dumping property" branch is not modelled, since here reading a property cannot fail once getProperties has returned.
- WalkTree.WalkNode: the nodes that throw a RepositoryException are the parameter `faults`, a map from a node's path to the call that fails on it (getPath/getName, getProperties or getNodes). The store's reasons for refusing access are not modelled.
- BunchOfColours.RandomColour: the shared `java.util.Random` is a nondeterministic choice, not a generator.
- BunchOfColours.SeedName: defined only for indices below 1000, which covers the loop's 0..99.
- BunchOfColours.Initialize: builds unitedcolours and attaches it once it is complete, rather than attaching it first and filling it through the builder. The final tree is the same.
- Locale-dependent case mapping: ToUpper/ToLower map ASCII letters only, which covers every verb name and colour constant.
