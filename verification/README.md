# A model of pggen in Dafny

pggen compiles annotated SQL files to Go. This project models the parts of it whose
correctness cannot be read off the code and proves what those parts are for:

- **Keyset pagination** (`Sql`, `Keyset`, `Paging`, `SortSpecs`, `SpecText`). One query and a sort spec
  become one statement per sort key and direction, each with an ORDER BY and a
  "strictly after the cursor" predicate. The predicate is an AST evaluated in SQL's
  three-valued logic (row comparison as in section 9.24.5 of the PostgreSQL 13 manual, null
  placement as in section 7.5). A client that pages through a changing table is a state
  machine, and the theorems are about all of its runs.
- **ClickHouse type names** (`ChTypes`, `ChGrammar`, `ChParser`, `ChReads`, `ChVerbatim`,
  `ChRoundTrip`, `ChIdentity`, `ChSpellings`). The recursive-descent parser is a class whose
  methods move a position; each is proved against a grammar given as functions of the position.
  Parsing undoes printing, except for blanks in front of types that pggen keeps verbatim, and
  the spellings that are read but never printed are given their meaning, too.
- **ClickHouse queries** (`ChLex`, `ChLexical`, `ChStatements`, `ChParams`, `ChQuiet`, `ChRewrite`,
  `ChCommute`, `ChBind`, `ChPrepare`, `ChEmitted`, `ChOrder`). A text and its list of lexemes
  determine each other, so that rewriting the text is replacing lexemes; every rewrite is shown
  to commute with scanning again, and what it writes is read back.
- **Query files** (`PgTokens`, `PgScanner`, `PgLexical`, `PgTokenRun`, `PgManual`, `PgArgs`,
  `PgPrepare`, `PgParser`, `PgVerbatim`). Scanner and parser are classes. What the scanner
  reads as each kind of token is given as a grammar of its own, and compared with the lexical
  rules of the PostgreSQL 13 manual (sections 4.1 and 4.2.2): the tokens are the manual's exactly
  for the sources that `PgManual.Conforms` describes. `pggen.arg` expressions are replaced by
  placeholders and nothing else is.
- **Catalog types** (`PgTypes`, `PgFetcher`). Composite types share their column arrays, and
  placeholders are patched through them in place.
- **Output names** (`Emitter`). Names are numbered, the first one retroactively.

`Text` holds the string functions that all of them use. `dafny verify dfyconfig.toml` checks
the whole project.

What the proofs found about the code:

- A sort key of one nullable column repeats rows: the cursor on the null row is the one of
  the first page (`Paging.NeverRepeatsExactlyWhen`).
- The default statement ignores the nullable declarations, so a null in a default column is
  skipped (`SortSpecs.DefaultWorksExactlyWhen`).
- A key without columns is accepted (`SpecText.EmptyKeyIsAccepted`), and two columns may be
  bound to one cursor argument, which then cannot carry both values: a client can always go
  on exactly when no two columns share an argument (`Paging.FetchesExactlyWhen`).
- A type kept verbatim gains a blank each time it is printed and parsed as the value of a Map
  or as an unnamed element behind the first of a Tuple; every other type is left alone
  (`ChIdentity.ParsePrintParse`, `ChIdentity.UnsettledGrows`).
- The generated `substituteIdentifiers` also rewrites inside literals and comments; it agrees
  with the lexer-based substitution exactly when they hold no hole text
  (`ChEmitted.EmittedAgreesExactlyWhen`). Even the order of the Go map can decide the result,
  exactly when filling some names makes the hole text of another one
  (`ChOrder.OrderMattersExactlyWhen`).
- A `pggen.arg(` with a blank behind the parenthesis is no argument and stays in the query
  (`PgVerbatim.BlankInside`, `PgArgs.OccurrenceIsFoundExactlyWhen`).
- The scanner knows no escape strings, takes a positional parameter for a dollar quote and lets
  a number swallow a dollar sign, so that it can find a separator inside a string of
  PostgreSQL (`PgManual.EscapedQuote`, `PgManual.DigitTag`, `PgManual.NumberBeforeDollar`). Where
  nothing of that kind stands, its tokens are the manual's, and only there
  (`PgManual.TokensAreTheManuals`).
- Scanning stays for ever in front of a NUL (`PgTokenRun.ScanMakesProgress`).
- The comment on `ClickHousePlaceholder` (internal/parser/interface.go:48) says that it leaves
  a reference exactly as written; it does so exactly when the name stands right behind
  `pggen.arg(` and the closing parenthesis right behind the name
  (`PgVerbatim.ClickHouseKeepsExactlyWhen`). The model follows the code.
- A failed lookup of catalog types can leave placeholders in the cache, and the next call
  returns them (`PgFetcher.FailedCallLeavesPlaceholder`).
- Output names can collide when base names do not end in `.sql`
  (`Emitter.NamesDifferExactlyWhen`, `Emitter.OtherNamesClash`).

## Model

| member | source | states |
|---|---|---|
| `Keyset.SelectsExactlyAfter` | internal/parser/paginate.go:421-481 | for every accepted variant, row and cursor, the predicate is TRUE exactly when the row comes strictly after the cursor's row in the generated ORDER BY, or the cursor is the first page's |
| `Keyset.FirstPageSelectsAll` | internal/parser/paginate.go:474-480 | with all cursor arguments NULL the predicate is TRUE for every row |
| `Keyset.CursorWorksExactlyWhen` | internal/parser/paginate.go:450-480 | a cursor selects what follows it if and only if it is not the NULL of a one-column nullable key |
| `Keyset.SpellingsSelectTheSame` | internal/parser/paginate.go:427-436 | the IS NOT DISTINCT FROM spelling and the long spelling select the same rows for all rows and arguments |
| `Keyset.SpellingsDiffer` | internal/parser/paginate.go:431-436 | the two spellings differ in three-valued result when exactly one side is NULL: FALSE against unknown |
| `Keyset.NotDistinctExactlyWhen` | internal/parser/paginate.go:421-436 | the predicate says IS NOT DISTINCT FROM if and only if a nullable lead stands in front of further columns and no binding starts with a brace |
| `Keyset.DescReversesAsc` | internal/parser/paginate.go:398-416 | in keyset mode the descending order is the ascending one reversed, NULL placement included |
| `Keyset.OrderingOnlyKeepsNullsLast` | internal/parser/paginate.go:394-406 | without a cursor, where two rows first differ in that a nullable column of one is NULL, that row comes last in both directions |
| `Keyset.OrderIsStrictAndTotal` | internal/parser/paginate.go:398-416 | the ordering is irreflexive and transitive, and total on rows with different last columns |
| `Keyset.TiebreakNeverMatters` | internal/parser/paginate.go:296-301 | terms appended to the ORDER BY never change the order of rows with different last columns |
| `Paging.NextKeepsInv` | internal/parser/paginate.go:398-481 | every page fetched and every change to the table keeps: rows returned in strictly increasing order, cursor at the last of them |
| `Paging.RunKeepsInv` | internal/parser/paginate.go:398-481 | the invariant holds in every state of every run |
| `Paging.NothingTwice` | internal/parser/paginate.go:398-481 | no run returns a sort key twice, whatever happens to the table between pages |
| `Paging.CursorAdvances` | internal/parser/paginate.go:398-481 | every non-empty page moves the cursor strictly forward |
| `Paging.NothingMissed` | internal/parser/paginate.go:398-481 | once a short page ends the run, every sort key present throughout has been returned exactly once |
| `Paging.PagesAreTheFullResult` | internal/parser/paginate.go:309-328 | on an unchanged table the pages concatenate to the full ORDER BY result |
| `Paging.PagesAreBounded` | internal/parser/paginate.go:309-328 | on an unchanged table of n rows, paging by k ends after at most n / k + 1 pages |
| `Paging.FetchIsEnabled` | internal/parser/paginate.go:421-481 | in every reachable unfinished state the next page and its cursor exist, if no two columns share a cursor argument |
| `Paging.SharedArgumentStops` | internal/parser/paginate.go:166-206 | if two do, some state has no next page with a cursor |
| `Paging.FetchesExactlyWhen` | internal/parser/paginate.go:166-206 | a client can always go on if and only if no two columns share a cursor argument |
| `Paging.NullRowRepeats` | internal/parser/paginate.go:474-478 | a one-column nullable key has a run that returns the NULL row twice |
| `Paging.NeverRepeatsExactlyWhen` | internal/parser/paginate.go:450-480 | an accepted statement never repeats a key if and only if it is not a single nullable column |
| `SortSpecs.SplitTerms` | internal/parser/paginate.go:211-237 | the terms are the non-blank stretches between commas outside brackets, trimmed |
| `SortSpecs.SplitUndoesJoin` | internal/parser/paginate.go:208-237 | any list of terms, joined by commas with any blanks around each, splits back into the terms |
| `SortSpecs.BracketedIsTerm` | internal/parser/paginate.go:208-237 | a text whose commas all stand inside nested round or curly brackets is one term |
| `SortSpecs.CheckNullable` | internal/parser/paginate.go:123-133 | accepts a key if and only if no column behind the first is nullable |
| `SortSpecs.CheckBound` | internal/parser/paginate.go:167-184 | accepts columns if and only if each has a cursor binding |
| `SortSpecs.CheckCursorBindings` | internal/parser/paginate.go:166-206 | accepts bindings if and only if every column is bound and, in ClickHouse, every binding is a Nullable parameter |
| `SortSpecs.NullableParamExactlyWhen` | internal/parser/paginate.go:153-203 | a binding passes for a Nullable parameter if and only if it is a brace, a name without a colon, a colon, blanks, a type that starts with `Nullable(`, and a brace |
| `SortSpecs.LinesDeclareNullable` | internal/parser/paginate.go:62-91 | the nullable columns collected are those of the nullable lines, in order |
| `SortSpecs.Finish` | internal/parser/paginate.go:99-118 | a draft is accepted if and only if it meets every rule of keyset specs, and each key keeps its own nullable columns |
| `SortSpecs.ParseSortSpec` | internal/parser/paginate.go:59-119 | a spec is accepted if and only if its lines are well-formed and it meets every rule, and then is what the lines describe |
| `SpecText.LinesReadExactlyWhen` | internal/parser/paginate.go:62-91 | the lines are well-formed if and only if every key line has a colon and every binding of a cursor line an equals sign |
| `SpecText.CursorLineBinds` | internal/parser/paginate.go:82-89 | a cursor line with any number of bindings binds each of its columns, the last binding of a column winning, and changes nothing else |
| `SortSpecs.FanOut` | internal/parser/paginate.go:286-344 | succeeds if and only if the placeholders match the spec; gives one default statement, then for each key in order the descending and the ascending one; each sorts by exactly its columns in its direction and carries the tiebreak; with a cursor it compiles the keyset variant, without one it has no predicate and puts nulls last |
| `SortSpecs.KeyStatementsAreVariants` | internal/parser/paginate.go:315-328 | the statements behind the first compile, for an accepted keyset spec, the accepted variants of its keys, descending and ascending in turn |
| `SortSpecs.KeyIsPageable` | internal/parser/paginate.go:99-133 | the paging theorems apply to a key's statement if and only if the key has columns and is not a single nullable one |
| `SortSpecs.LinesToPages` | internal/parser/paginate.go:59-119 | from the lines of a spec to its statements: which of them page safely, by the columns that the lines declare nullable |
| `SpecText.LinesReadBack` | internal/parser/paginate.go:59-119 | writing a spec as lines, with any blanks around the parts and any number of bindings on each cursor line, and reading the lines gives the spec back: keys, nullable columns, tiebreak, default and bindings |
| `SpecText.EmptyKeyIsAccepted` | internal/parser/paginate.go:66-75 | a spec with a key without columns is accepted |
| `SortSpecs.DefaultStatementIsAVariant` | internal/parser/paginate.go:309-314 | so is the default statement |
| `SortSpecs.DefaultSkipsNull` | internal/parser/paginate.go:309-314 | a default column declared nullable makes the default statement skip rows |
| `SortSpecs.DefaultWorksExactlyWhen` | internal/parser/paginate.go:309-314 | the default statement selects what follows its cursor on all declared rows if and only if no default column is declared nullable |
| `ChTypes.EnumString` | internal/ch/types.go:120-135 | the builder loop writes the canonical spelling of the enum |
| `ChTypes.TupleString` | internal/ch/types.go:137-152 | the builder loop writes the canonical spelling of the tuple |
| `ChTypes.TypeString` | internal/ch/types.go:94-154 | every String method writes the canonical spelling |
| `ChParser.Parser.ParseString` | internal/ch/parse.go:101-133 | reads an escaped string literal as the grammar does, and stops where it stops |
| `ChParser.Parser.ParseInt` | internal/ch/parse.go:137-160 | reads a signed number as the grammar does |
| `ChParser.Parser.ParseType` | internal/ch/parse.go:162-294 | reads a type as the grammar does, for every text and position |
| `ChParser.Parser.ParseEnum` | internal/ch/parse.go:341-378 | reads an enum as the grammar does, range check included |
| `ChParser.Parser.ParseTuple` | internal/ch/parse.go:380-424 | reads a tuple as the grammar does, although it rewinds before positional elements |
| `ChParser.Parser.SkipBalanced` | internal/ch/parse.go:428-452 | stops behind the matching parenthesis, parentheses in string literals not counted |
| `ChParser.ParseTypeName` | internal/ch/parse.go:17-28 | terminates on every text with what the grammar says; what that is, `ChIdentity` and `ChSpellings` say |
| `ChReads.QuoteReads` | internal/ch/types.go:220-223 | a quoted label or time zone reads back as itself, whatever characters it holds |
| `ChRoundTrip.PrintReads` | internal/ch/parse.go:162-424 | wherever the spelling of a type stands and is ended, the parser reads that type, with its verbatim parts spaced, and stops behind it |
| `ChVerbatim.VerbatimReads` | internal/ch/parse.go:285-294 | a verbatim text reads as itself wherever it stands |
| `ChVerbatim.KeptIsVerbatim` | internal/ch/parse.go:285-294 | what the parser keeps verbatim is such a text |
| `ChRoundTrip.ParsePrintSpaces` | internal/ch/parse.go:17-28 | parsing the spelling of any type the parser can return gives it back with its verbatim parts spaced |
| `ChIdentity.ParsePrint` | internal/ch/parse.go:17-28 | parsing the spelling of a well-formed type gives back the type |
| `ChIdentity.TypeIsSound` | internal/ch/parse.go:162-294 | every type read is well-formed, except that its verbatim parts are verbatim texts |
| `ChIdentity.ParsedIsReadable` | internal/ch/parse.go:17-28 | so is every type that Parse returns |
| `ChIdentity.ParsedIsWellFormed` | internal/ch/parse.go:17-28 | every supported type that Parse returns is well-formed |
| `ChIdentity.ParsePrintParse` | internal/ch/parse.go:163-411 | for every text that parses, parse, print, parse puts a blank before each verbatim map value and each unnamed verbatim element behind the first of a tuple, and gives what the first parse gave if and only if there is none |
| `ChIdentity.UnsettledGrows` | internal/ch/parse.go:163-411 | a type that is changed is changed again by the next round, and its spelling grows each time |
| `ChIdentity.KeyIsIdentity` | internal/ch/types.go:173 | any two types that the parser can return with the same key are the same type |
| `ChIdentity.VerbatimIsNotCanonical` | internal/ch/parse.go:163-292 | an example of a type that is changed: a Map with a verbatim value |
| `ChSpellings.FixedDecimalParses` | internal/ch/parse.go:156-248 | DecimalW(S), for W of 32, 64, 128 and 256 and every scale, is the Decimal of scale S whose precision is the greatest p with 10^p < 2^(W-1) |
| `ChSpellings.BareNameParses` | internal/ch/parse.go:168-179 | a bare name is a scalar, except that DateTime has no time zone and DateTime64 has precision 3 |
| `ChSpellings.NamedParses` | internal/ch/parse.go:181-241 | each constructor is read under its own name from the spellings of its arguments |
| `ChSpellings.PairParses` | internal/ch/parse.go:380-424 | a tuple of two is read without and with field names |
| `ChSpellings.PlusParses` | internal/ch/parse.go:137-154 | a number may carry a plus sign |
| `ChSpellings.BlanksAround` | internal/ch/parse.go:17-28 | spaces, tabs and newlines around a type do not matter |
| `ChSpellings.OnlyBlanksAreSkipped` | internal/ch/parse.go:87-97 | any other character in front of a type is refused |
| `ChSpellings.TrailingTextIsRefused` | internal/ch/parse.go:17-28 | so is a comma or a bracket behind it, with whatever follows |
| `ChSpellings.LiteralReads` | internal/ch/parse.go:101-135 | a quoted text means its characters, where a backslash with n, t, r or 0 is newline, tab, return or NUL and with any other character that character |
| `ChSpellings.TimeZoneParses` | internal/ch/parse.go:250-255 | a time zone written so is read so |
| `ChSpellings.EnumTakesExactly` | internal/ch/parse.go:341-378 | an enum label takes a value if and only if it is in the signed range of 8 or 16 bits |
| `ChLex.SkipLiteral` | internal/ch/statements.go:14-32 | skips exactly the literal that starts here, or nothing |
| `ChLex.SkipComment` | internal/ch/statements.go:34-52 | skips exactly the comment that starts here, or nothing |
| `ChLex.FirstLocal` | internal/ch/statements.go:14-52 | what follows a lexeme changes it only where the seam does not fit |
| `ChLex.LexIsCanonical` | internal/ch/statements.go:14-52 | the lexemes of a text concatenate to it, and every seam fits |
| `ChLex.LexUndoesFlatten` | internal/ch/statements.go:14-52 | a list of lexemes whose seams fit is the one its text is read as |
| `ChLexical.LexemeIsExact` | internal/ch/statements.go:14-52 | a lexeme is read if and only if it is spelled by the rules of its kind: line and block comments, text in one of three quotes with backslash escapes, holes, single characters |
| `ChLexical.LexingIsUnique` | internal/ch/statements.go:14-52 | the scanners cut every text in the one way that these rules, and what each lexeme allows behind it, permit |
| `ChStatements.SplitStatements` | internal/ch/statements.go:61-93 | the statements are the trimmed non-blank pieces between semicolon lexemes, comments dropped |
| `ChStatements.SingleStatement` | internal/ch/statements.go:103-116 | succeeds if and only if there is exactly one statement |
| `ChStatements.StatementsAreStable` | internal/ch/statements.go:61-93 | every statement is trimmed, splits to itself alone and holds no comment and no semicolon lexeme |
| `ChStatements.SplitUndoesJoin` | internal/ch/statements.go:61-93 | joining the statements with semicolons and splitting again gives the same list |
| `ChStatements.JoinedStatementsSplit` | internal/ch/statements.go:61-93 | any list of statements without comments and semicolons, joined by semicolons, splits into just these, if no quoted text runs across them |
| `ChStatements.CommentIsNewline` | internal/ch/statements.go:71-77 | a comment can be replaced by a newline anywhere without changing the statements |
| `ChParams.ScanSql` | internal/ch/params.go:19-69 | the segments are the holes outside comments and literals, and the text between them |
| `ChParams.ScanParams` | internal/ch/params.go:82-101 | the distinct parameters in order of first appearance, or an error if a name has two types |
| `ChParams.DistinctIsExact` | internal/ch/params.go:82-101 | the parameters are the first occurrences of their names in order, and there is an error if and only if two occurrences of a name have types spelled differently |
| `ChParams.RewriteWith` | internal/ch/params.go:128-220 | the builder that all rewrites share writes the text segments and, for each parameter, what is put in its place |
| `ChCommute.SubstituteIdentifiers` | internal/ch/params.go:128-149 | succeeds if and only if every hole declares a parameter; keeps every other lexeme; for values that are plain text, the result scans and has exactly the parameters left that got no value |
| `ChBind.RewriteParams` | internal/ch/params.go:162-188 | succeeds if and only if every hole declares a parameter; keeps every other lexeme; the result has exactly the Identifier parameters; read along the query it holds a cast of the same name and type in place of each other one, and these are all its casts of named arguments unless the query opens one itself |
| `ChCommute.RenameParams` | internal/ch/params.go:203-220 | succeeds if and only if every hole declares a parameter; keeps every other lexeme; for names that are identifiers, the result has exactly the renamed parameters |
| `ChQuiet.PrintIsQuiet` | internal/ch/types.go:94-154 | a printed type, put into a query, starts no comment, literal or hole there |
| `ChQuiet.PrintIsPlain` | internal/ch/types.go:94-154 | a printed type holds a closing brace only if one of its labels, names or zones does |
| `ChRewrite.RewriteMeans` | internal/ch/params.go:19-69 | a rewrite succeeds if and only if every hole declares a parameter, and keeps every other lexeme, literals and comments included, in order |
| `ChRewrite.ReplaceIsCanonical` | internal/ch/params.go:162-188 | replacing holes creates no new comment, literal or hole at a seam |
| `ChRewrite.ScanAfterRewrite` | internal/ch/params.go:19-69 | scanning the rewritten text finds the original lexemes with the holes replaced |
| `ChRewrite.HoleTextReads` | internal/ch/params.go:36-62 | a parameter written as a hole is read back as that parameter |
| `ChRewrite.PaddedHoleReads` | internal/ch/params.go:41-56 | so it is with any blanks around its name and its type |
| `ChRewrite.NamelessHoleIsRefused` | internal/ch/params.go:43-51 | a hole without a colon, or with nothing but blanks in front of it, declares no parameter |
| `ChCommute.SubstituteScans` | internal/ch/params.go:128-149 | scanning the filled query finds the original lexemes with only the filled holes replaced |
| `ChBind.BoundQueryScans` | internal/ch/params.go:162-188 | scanning the output of RewriteParams finds exactly the Identifier parameters of the input, all other lexemes are kept, and rewriting again changes nothing |
| `ChBind.FillReadsBack` | internal/ch/params.go:167-183 | a reader of holes and of casts finds every occurrence of a parameter in its place, with its name and type |
| `ChBind.CastsAreValues` | internal/ch/params.go:177-181 | looking for casts outside comments and literals finds, in order, exactly the occurrences that are not Identifiers |
| `ChCommute.RenameScans` | internal/ch/params.go:203-220 | the renamed query has the renamed parameters, occurrence by occurrence |
| `ChCommute.RenameCommutes` | internal/ch/params.go:82-101 | for an injective rename into identifiers, scanning the result gives the renamed parameters of the input |
| `ChCommute.RenameComposes` | internal/ch/params.go:203-220 | renaming by f and then g is renaming by g after f |
| `ChPrepare.Prepare` | internal/chinfer/chinfer.go:124-161 | succeeds if and only if every input but the Identifiers has a literal and the query, with the hole of each Identifier replaced by its own name and every other hole by `{pggen_param_i:Type}` for the i-th input, is a single statement; and that statement is sent |
| `ChPrepare.PreparedIsReady` | internal/chinfer/chinfer.go:124-161 | the prepared statement is single, without comment and terminator, has no Identifier parameter, and its parameters are exactly the arguments' distinct new names with the original types in first-appearance order |
| `ChPrepare.PreparedText` | internal/chinfer/chinfer.go:132-156 | filling in the identifiers, renaming and taking the single statement gives that text |
| `ChEmitted.CheckIdentifier` | internal/codegen/golang/declarer_identifier.go:52-71 | accepts a value if and only if it is a dotted list of plain identifiers |
| `ChEmitted.PlainExactlyWhen` | internal/codegen/golang/declarer_identifier.go:52-71 | that is, if and only if it is not empty, does not end in a dot, and holds letters, underscores, and digits and dots that neither start it nor follow a dot |
| `ChEmitted.EmittedSubstituteIdentifiers` | internal/codegen/golang/declarer_identifier.go:40-48 | checks and replaces each name in the order the map is visited |
| `ChEmitted.RefusedInEveryOrder` | internal/codegen/golang/declarer_identifier.go:40-48 | a call succeeds if and only if every value is plain, in whatever order |
| `ChEmitted.EmittedAgreesExactlyWhen` | internal/codegen/golang/declarer_identifier.go:40-48 | the helper gives what SubstituteIdentifiers gives if and only if no comment and no literal holds the text of a filled hole |
| `ChEmitted.OrderDoesNotMatter` | internal/codegen/golang/declarer_identifier.go:40-48 | then every map order gives the same query |
| `ChOrder.OrderMattersExactlyWhen` | internal/codegen/golang/declarer_identifier.go:40-48 | for every query and all accepted values, all map orders give the same result if and only if the query holds no nest: braces around stretches and hole texts that read as the hole of another name once these are filled |
| `ChOrder.WithoutNest` | internal/codegen/golang/declarer_identifier.go:40-48 | without a nest every order gives what filling all holes at once gives |
| `ChOrder.WithNest` | internal/codegen/golang/declarer_identifier.go:40-48 | with one, the orders that fill the name of the nest last and one of its inner names last but one, or the other way round, give different results |
| `ChOrder.MadeByNest` | internal/codegen/golang/declarer_identifier.go:45 | a hole text that was not there before some names were filled comes from a nest |
| `ChEmitted.HoleInLiteral` | internal/codegen/golang/declarer_identifier.go:40-48 | for every name and plain value, the helper rewrites the hole text inside a literal that SubstituteIdentifiers leaves alone |
| `ChEmitted.OrderCanMatter` | internal/codegen/golang/declarer_identifier.go:40-48 | for every two names of which one is made by filling the other, there is a query on which the two orders give different results |
| `ChEmitted.BoundIsNormal` | internal/ch/params.go:162-188 | what RewriteParams leaves is in the form that the helper's replacement matches |
| `PgScanner.Scanner.constructor` | internal/scanner/scanner.go:107-124 | starts at the first character |
| `PgScanner.Scanner.Next` | internal/scanner/scanner.go:53-83 | moves one character on and keeps current, previous and next position consistent |
| `PgScanner.Scanner.ScanLineComment` | internal/scanner/scanner.go:149-155 | the text up to the end of the line |
| `PgScanner.Scanner.ScanBlockComment` | internal/scanner/scanner.go:157-183 | the block comment by counting levels, or Illegal |
| `PgScanner.Scanner.ScanQuoted` | internal/scanner/scanner.go:185-205 | a single-quoted string, or with the other quote (internal/scanner/scanner.go:242-262) a quoted identifier, or Illegal |
| `PgScanner.Scanner.ScanDollarQuoteString` | internal/scanner/scanner.go:207-240 | the dollar-quoted string up to the first closing tag, or Illegal |
| `PgScanner.Scanner.ScanQueryFragment` | internal/scanner/scanner.go:265-296 | the text up to the next place where a fragment stops |
| `PgScanner.Scanner.Scan` | internal/scanner/scanner.go:316-351 | position, kind, literal and end of the next token are those of the position-based reading |
| `PgLexical.QuoteIsExact` | internal/scanner/scanner.go:185-205 | a quoted token is read if and only if it is some text with its quotes doubled, in quotes, not followed by another quote |
| `PgLexical.DollarIsExact` | internal/scanner/scanner.go:207-240 | a dollar-quoted token is read if and only if it is a tag, a text without that tag, and the tag |
| `PgLexical.CountingIsDescending` | internal/scanner/scanner.go:163-181 | counting levels finds the end that descending into nested comments finds |
| `PgLexical.CommentIsExact` | internal/scanner/scanner.go:157-183 | a block comment is read if and only if it is the text of a tree of nested comments with no other comment sign |
| `PgLexical.FragmentIsExact` | internal/scanner/scanner.go:265-296 | a fragment is the longest stretch without a delimiter and without a dollar sign that starts a string |
| `PgTokenRun.TokenIsExact` | internal/scanner/scanner.go:316-351 | a token of a kind and length is read if and only if the scanner's grammar allows it there |
| `PgTokenRun.IllegalExactlyWhen` | internal/scanner/scanner.go:316-351 | Illegal or no progress means that the grammar allows no token there, and conversely |
| `PgTokenRun.ScanMakesProgress` | internal/scanner/scanner.go:316-351 | every call moves on except at the end and in front of a NUL; EOF is reported if and only if only blanks are left |
| `PgTokenRun.TokenizationIsUnique` | internal/scanner/scanner.go:316-351 | scanning to the end finds the one tokenization that the grammar allows, and fails only if there is none |
| `PgTokenRun.TokensFollowTheRules` | internal/scanner/scanner.go:316-351 | also before an illegal token, what is scanned follows the grammar with only blanks in the gaps |
| `PgTokenRun.TokensRebuildTheSource` | internal/scanner/scanner.go:316-351 | gaps and literals, and the semicolons, concatenate to the source |
| `PgTokenRun.TokensAreDisjoint` | internal/scanner/scanner.go:316-351 | tokens come one behind the other, none empty |
| `PgTokenRun.SemicolonSeparatesExactlyWhen` | internal/scanner/scanner.go:342-344 | a position is a Semicolon token if and only if it holds a semicolon outside every string, quoted identifier and comment that the scanner reads |
| `PgManual.FragmentAgrees` | internal/scanner/scanner.go:265-296 | a fragment ends where the manual ends it if and only if every dollar sign in it belongs to an identifier or a parameter, and no parameter follows |
| `PgManual.EscapeAgrees` | internal/scanner/scanner.go:185-205 | an escape string ends where the manual ends it if and only if no quote in it is escaped by a backslash |
| `PgManual.DollarStringIsExact` | internal/scanner/scanner.go:207-240 | where no parameter starts, the dollar-quoted strings are exactly those with the manual's tags |
| `PgManual.TokenAgrees` | internal/scanner/scanner.go:316-351 | a call returns the manual's token if and only if nothing of these three kinds stands there |
| `PgManual.TokensAreTheManuals` | internal/scanner/scanner.go:316-351 | the tokens of a source are the manual's if and only if that holds of every one of them |
| `PgManual.SemicolonsByTheManual` | internal/scanner/scanner.go:342-344 | in such a source a position separates queries if and only if it holds a semicolon outside every string, quoted identifier and comment of the manual |
| `PgManual.PlainConforms` | internal/scanner/scanner.go:316-351 | every source without backslashes and without dollar signs next to digits is such a source |
| `PgManual.DigitTag` | internal/scanner/scanner.go:207-222 | a parameter that the scanner takes for a dollar-quoted string |
| `PgManual.NumberBeforeDollar` | internal/scanner/scanner.go:281-288 | a dollar-quoted string behind a number, inside which the scanner finds a separator |
| `PgManual.EscapedQuote` | internal/scanner/scanner.go:185-205 | an escape string inside which the scanner finds a separator |
| `PgParser.Parser.constructor` | internal/parser/parser.go:38-52 | the current token is the first that is not a line comment |
| `PgParser.Parser.Next` | internal/parser/parser.go:144-170 | advances to the next token that is not a line comment |
| `PgParser.Parser.ParsePggenArg` | internal/parser/parser.go:392-415 | computes the span and the name of the argument, or fails at the token that does not fit |
| `PgParser.Parser.ParseQuery` | internal/parser/parser.go:213-282 | collects the arguments up to the semicolon; source, prepared SQL, parameter names and positions of the query, or the range of a bad one |
| `PgArgs.ArgReads` | internal/parser/parser.go:392-415 | the span computed from the last "pggen" starts at the marker and ends behind the parenthesis, and the name is the literal's |
| `PgArgs.SpansAreInside` | internal/parser/parser.go:222-244 | the spans are ordered, disjoint and inside the query, and each holds the pggen.arg expression of its name |
| `PgArgs.EveryMarkerIsFound` | internal/parser/parser.go:228-242 | the spans start at exactly the markers that end a query fragment, all of them, in order |
| `PgArgs.OccurrenceIsFoundExactlyWhen` | internal/parser/parser.go:228-242 | an occurrence of `pggen.arg(` in a fragment of a parsed query becomes an argument if and only if it ends the fragment |
| `PgArgs.FragmentEndsAtStop` | internal/scanner/scanner.go:265-296 | and a fragment ends at a string, quoted identifier, comment, dollar quote, semicolon or NUL, and nowhere else |
| `PgPrepare.PrepareSQL` | internal/parser/parser.go:420-450 | the map, counter and builder loops compute the parameter names and the spliced text |
| `PgPrepare.FirstSeenIsExact` | internal/parser/parser.go:424-434 | ParamNames has no duplicates, has every name, and is in order of first appearance |
| `PgPrepare.OrdinalsAreExact` | internal/parser/parser.go:424-434 | the ordinals used are exactly 1 to n, and two arguments share one if and only if they share the name |
| `PgPrepare.PlaceholdersTellApart` | internal/parser/interface.go:42-46 | a placeholder is a dollar sign and the digits of a number under which the name stands in ParamNames, counted from one; two arguments get the same if and only if they have the same name |
| `PgPrepare.OnlySpansChange` | internal/parser/parser.go:438-449 | source and prepared SQL are the same texts, woven with the span texts in one and the placeholders in the other |
| `PgVerbatim.KeptExactlyWhen` | internal/parser/parser.go:438-449 | where no placeholder is longer than its span, the SQL is unchanged if and only if every span is |
| `PgVerbatim.TightIsShortest` | internal/parser/interface.go:48-55 | a reference is spelled as its placeholder if and only if nothing stands between its marker, its name and its parenthesis |
| `PgVerbatim.ClickHouseKeepsExactlyWhen` | internal/parser/interface.go:48-55 | a parsed ClickHouse query is left as written if and only if that holds of every reference |
| `PgVerbatim.BlankIsLost` | internal/parser/interface.go:48-55 | parsing the query `pggen.arg ('x');` and filling it again loses the blank |
| `PgVerbatim.BlankInside` | internal/parser/parser.go:228-242 | the query `pggen.arg( 'x');` is parsed without an argument |
| `PgFetcher.TypeFetcher.constructor` | internal/pg/type_fetcher.go:16-21 | the cache starts with the known types and no placeholder |
| `PgFetcher.TypeFetcher.GetOIDs` | internal/pg/type_cache.go:25-38 | the cached types of the OIDs, and exactly the OIDs without one |
| `PgFetcher.TypeFetcher.FindEnumTypes` | internal/pg/type_fetcher.go:96-117 | finds exactly the uncached enums |
| `PgFetcher.TypeFetcher.FindCompositeTypes` | internal/pg/type_fetcher.go:119-166 | finds exactly the uncached composites, each once with a new column array; a column is a placeholder only if it was not cached |
| `PgFetcher.TypeFetcher.FindArrayTypes` | internal/pg/type_fetcher.go:193-212 | finds exactly the uncached arrays, and fails if and only if an element is not cached |
| `PgFetcher.TypeFetcher.FindUnknownTypes` | internal/pg/type_fetcher.go:168-191 | finds exactly what else the catalog names |
| `PgFetcher.TypeFetcher.ResolveType` | internal/pg/type_fetcher.go:218-246 | terminates on an acyclic catalog; the only changes to column arrays are placeholders replaced by their types; fails only at a placeholder without a type |
| `PgFetcher.TypeFetcher.ResolvePlaceholderTypes` | internal/pg/type_fetcher.go:216-256 | in whatever order the map is visited, success leaves no placeholder in the columns of any of the types |
| `PgFetcher.TypeFetcher.FindTypesByOIDs` | internal/pg/type_fetcher.go:26-94 | succeeds if and only if everything is cached or can be classified; then every requested OID is there, and nothing reachable from a returned or cached type is a placeholder or differs from the catalog; says which failed calls leave placeholders |
| `PgFetcher.FailedCallLeavesPlaceholder` | internal/pg/type_fetcher.go:27-92 | a call that fails and leaves a placeholder in the cache, and a second call that succeeds and returns a type from which it is reached |
| `PgTypes.UnknownColumnIsSeen` | internal/pg/type_fetcher.go:137-151 | a column that no query finds leaves a placeholder, and its call cannot succeed |
| `PgTypes.FollowsTheCatalog` | internal/pg/type_fetcher.go:119-166 | along every path the types reached have the OIDs and kinds of the catalog |
| `PgTypes.NotStuck` | internal/pg/type_fetcher.go:237-242 | if every column is known in the end, no placeholder is left without a type |
| `Emitter.HasBaseCollision` | internal/codegen/golang/emitter.go:40-48 | reports whether two base names are equal |
| `Emitter.NumberNames` | internal/codegen/golang/emitter.go:66-89 | numbers the names by count of earlier equal keys, the first one retroactively |
| `Emitter.ChooseOutputFiles` | internal/codegen/golang/emitter.go:38-94 | where base names differ every file gets its base name and .go; otherwise directory, underscore and base name, and unless that is the only file of this name a dot and the number of earlier ones, and .go |
| `Emitter.PrefixedName` | internal/codegen/golang/emitter.go:66-89 | the number in a name is the count of earlier files of the same name, and is there if and only if there is another one |
| `Emitter.NamesDifferExactlyWhen` | internal/codegen/golang/emitter.go:38-94 | the names are pairwise distinct if and only if the base names are, or no prefixed name that occurs once is spelled like a numbered one |
| `Emitter.SqlNamesDiffer` | internal/codegen/golang/emitter.go:38-94 | for files ending in .sql the names are pairwise distinct |
| `Emitter.OtherNamesClash` | internal/codegen/golang/emitter.go:66-89 | without the suffix three files can get only two names |

## Left out

- Regular-expression substitution of the pagination placeholders and parsing the result again (internal/parser/paginate.go:330-372): predicates and orderings are ASTs, and whether a placeholder occurs is a parameter.
- Collecting sort specs from comment groups (internal/parser/paginate.go:21-57): the lines of a spec are given.
- Cell values other than integers: only the order of the values that occur matters, and any finitely many totally ordered values can be numbered.
- Error texts and positions of errors: errors are distinguished by kind at most; the limit of ten reported errors per file (internal/parser/parser.go:175-189) is not modelled.
- `Unsupported` types in query parameters: scanning them is modelled, the results about rewrites are not about them.
- Unwrap, Payload, IsNullable and ElemType (internal/ch/types.go:175-215), ZeroLiteral (a parameter of `ChPrepare.Prepare`) and ScanInsertTarget: easy members.
- Parameter names that are not identifiers: scanning them is modelled, the results about rewrites are not about them.
- Non-ASCII sources, Unicode white space and byte order marks: characters are bytes.
- ChPrepare.PreparedIsReady: names the values sent by the parameter `zero`, because literals by type are a table.
- Annotations, pragmas, doc comments and comment groups of a query (internal/parser/parser.go:106-170, internal/parser/parser.go:250-266): whether a query is annotated is a parameter of `PgParser.Parser.ParseQuery`.
- Sources with NUL in the parser: `PgParser` requires a NUL-free source, because parsing does not end in front of a NUL.
- PgScanner.Scanner.ScanQuoted: one method for the two methods of the source that differ only in the quote and the token.
- Names, labels and sort orders of catalog types: OIDs stand for types; queries to the catalog return exactly the rows of the catalog in an unspecified order and do not fail, and the descendants of the requested OIDs are given.
- PgFetcher.TypeFetcher.FindTypesByOIDs: promises a placeholder-free result only if the cache had no placeholder before, because a cached type is returned without being resolved again (internal/pg/type_fetcher.go:27-29); the mutex of the cache is not modelled, and a call is one step.
- PgManual: a line ends at a newline only, and newlines inside a comment do not count as white space between the parts of an escape string.
- Path handling in the emitter: a file is the pair of its directory's and its own base name.
- Postgres nullability inference, identifier casing, type resolvers, known-type tables, templates, database access and the command line.
