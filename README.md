# silly-branch-info, modelled in Dafny

`main.ts` opens the branch picker of a GitHub repository page and reads
every row of the dropdown into a list of branches. For each row it keeps a
name and a flag saying whether the row is marked as the default branch. It
then visits the branches in list order. Before branch `idx` it re-opens the
dropdown when `idx > 1` and clicks row `idx` when `idx > 0`. It extracts the
latest commit of the page and announces the branch with a title and a
message. At the end it closes the browser session.

The model has five modules:

- `Text` (`text.dfy`): the JavaScript string primitives applied to a row.
  These are `trim()`, `split(/\s/)` and `toLowerCase()`. Whitespace is the
  ECMAScript WhiteSpace and LineTerminator set, which `\s` and `trim()`
  share. Each primitive has a partner: `Join` for `Split` (both directions),
  and idempotence and an emptiness characterisation for `Trim`.
- `Branches` (`branches.dfy`): turning a row's text into a `Branch`.
- `Announcement` (`announcement.dfy`): the title and the message of an
  announcement. `ParseTitle` and `ParseMessage` read them back, so that
  what the composition keeps can be stated as a round trip.
- `Navigation` (`navigation.dfy`): `main` as the methods `ListBranches`,
  `VisitBranches` and `Run`. The browser work is recorded as a trace of
  `Action`s. One opening of the picker (`observe`, `locator` and `click`) is
  one `OpenPicker` or `Reopen`, and `all()[idx].click()` is one `Click(idx)`;
  the initial `goto` and the `all()` that lists the rows are not recorded.
  What the browser answers comes in as parameters: each row's
  text, and for each branch the outcome of the extraction. The methods are
  proved equal to the specification functions `Enumeration`, `LoopFrom` and
  `RunTrace`.
- `NavigationProperties` (`navigation_properties.dfy`): what every trace
  promises. This covers announcements, clicks, re-opens and the close, in
  count and order. It also shows that, under an assumed behaviour of the
  page (see "## Left out"), the dropdown is always open when a row is
  clicked and closed when the picker is clicked.

## Model

| member | source | states |
|---|---|---|
| Text.TrimStartCut | main.ts:72 | the result is the suffix of the row text left after its leading whitespace, and starts with a non-whitespace character |
| Text.TrimEndCut | main.ts:72 | the result is the prefix left before the trailing whitespace, and ends with a non-whitespace character |
| Text.TrimCutsWhitespace | main.ts:72 | `trim()` cuts only whitespace off both ends and leaves a string that neither starts nor ends with whitespace |
| Text.TrimNoop | main.ts:72 | a string without leading or trailing whitespace is unchanged by `trim()` |
| Text.TrimIdempotent | main.ts:72 | trimming twice is trimming once |
| Text.TrimEmpty | main.ts:72 | `trim()` gives the empty string exactly when the row text is all whitespace |
| Text.TrimEndAppend | main.ts:72 | trailing whitespace of `x + y` is cut inside `y` unless `y` is all whitespace |
| Text.Split | main.ts:72 | `split(/\s/)` gives one token more than there are whitespace characters; no token holds whitespace; the first token is the longest whitespace-free prefix |
| Text.SplitTail | main.ts:72 | the tokens after the first are the tokens of the text after the first whitespace character |
| Text.JoinSplit | main.ts:72 | splitting loses nothing: the tokens joined with the separators give back the text |
| Text.SplitJoin | main.ts:72 | splitting undoes joining whitespace-free tokens with whitespace separators |
| Text.SplitWord | main.ts:72 | a whitespace-free text is a single token |
| Text.SplitAfterWord | main.ts:72 | a word followed by one whitespace character is split off as the first token, and the rest splits on its own |
| Text.Lower | main.ts:74 | `toLowerCase()` keeps the length and lower-cases each character on its own |
| Branches.ParseRow | main.ts:72-74 | the branch name is whitespace-free and is the first token of the trimmed row text |
| Branches.DefaultMarkerSpelling | main.ts:74 | a token lower-cases to "default" exactly when it is "default" in any mix of upper and lower case |
| Branches.FirstToken | main.ts:72 | any whitespace-free prefix that is followed by whitespace or the end is the first token |
| Branches.ParseRowDefault | main.ts:72-74 | the branch is the default one exactly when the name is followed by one whitespace character, a case-insensitive "default", and then whitespace or the end |
| Branches.ParseRowNotDefault | main.ts:72-74 | with no second token, or an empty second token from two whitespace characters in a row, the branch is not the default one |
| Branches.ParseBlankRow | main.ts:72-74 | an empty or all-whitespace row gives the empty name and not default |
| Branches.ParseOneWord | main.ts:72-74 | a one-word row names that branch, not the default one |
| Branches.ParseTwoWords | main.ts:72-74 | a name, one whitespace character and a word give the default branch exactly when the word spells "default" |
| Branches.LaterTokensIgnored | main.ts:72-74 | tokens after a non-empty second token do not change the branch (an empty second token, from two whitespace characters in a row, is covered by `ParseRowNotDefault`) |
| Announcement.TitleShape | main.ts:49 | the title is the name and a space, followed by "(default)" for the default branch and by nothing otherwise |
| Announcement.MessageShape | main.ts:49 | the message is "The latest commit is ", then the hash, then ": ", then the commit message, in that order and nothing else |
| Announcement.TitleRoundTrip | main.ts:49 | the branch can be read back from its title |
| Announcement.TitleInjective | main.ts:49 | two branches with the same title are the same branch |
| Announcement.MessageRoundTrip | main.ts:49 | for a hash without a colon, hash and commit message can be read back from the message |
| Announcement.MessageAmbiguousWithColonInHash | main.ts:49 | with a colon in the hash, two different commits give the same message |
| Navigation.Enumeration | main.ts:68-75 | the dropdown is opened once, then every row is read, in row order |
| Navigation.FirstFailure | main.ts:77-88 | the index of the first failed extraction: all before it succeed |
| Navigation.ListBranches | main.ts:68-75 | one branch per row, in row order, each parsed from its row's text; the calls are those of `Enumeration` |
| Navigation.VisitBranches | main.ts:77-90 | the loop makes exactly the calls of `LoopFrom`, and ends done or failed at the first failed extraction |
| Navigation.Run | main.ts:57-91 | `main` lists one branch per row and then makes the calls of `RunTrace` |
| NavigationProperties.StepSelect | main.ts:78-87 | for branch `idx`: one re-open iff `idx > 1`, one click on row `idx` iff `idx > 0`, one announcement iff the extraction succeeds, no close |
| NavigationProperties.AnnouncementsInOrder | main.ts:77-88 | every branch before the first failed extraction is announced once, in list order, with its own title and commit; all branches when none fails |
| NavigationProperties.ClicksInOrder | main.ts:83-86 | rows 1, 2, … are clicked once each in order, never row 0 and never past the list |
| NavigationProperties.ReopenCount | main.ts:78-82 | one re-open per started branch from the third on, none with two branches or fewer |
| NavigationProperties.CloseOnlyAtEnd | main.ts:77-90 | the session is closed once, as the last call, exactly when every extraction succeeds; otherwise the failed extraction is the last call |
| NavigationProperties.DropdownInSync | main.ts:78-86 | every row click happens with the dropdown open and every picker click with it closed |
| NavigationProperties.PolicyIsNeeded | main.ts:78-86 | re-opening before branch 1, or clicking row 2 without re-opening, would break that |
| NavigationProperties.StepsInIndexOrder | main.ts:77-88 | the trace holds each started branch's re-open, click, extraction and announcement as one block, blocks in index order |
| NavigationProperties.ThreeBranches | main.ts:57-91 | the full call sequence for three branches |
| NavigationProperties.OneBranch | main.ts:57-91 | one branch: no re-open and no click, one extraction and one announcement |
| NavigationProperties.ThirdExtractionFails | main.ts:57-91 | a failure on the third branch leaves two announcements and no close |

## Left out

- The browser calls `goto`, `observe`, `locator`, `click`, `innerText`, `all`, `extract` and `close` (main.ts:20-44, 66, 71, 80-85, 90) are foreign calls and are not modelled as behaviour. An `observe`, `locator` and `click` that open the picker together make one `OpenPicker` or `Reopen` action, `all()[idx].click()` makes one `Click(idx)`, and `innerText`, `extract` and `close` each make one action; the row texts and extraction outcomes they return are parameters.
- `page.goto` (main.ts:66) and the `all()` that lists the rows (main.ts:71) are not recorded in the trace.
- Row `idx` of the freshly queried list is assumed to be the row read as branch `idx`. The model does not check that the page lists the same rows again.
- Only extraction is modelled as failing. A failing `observe` or `click` would abort the run the same way; it is not modelled.
- After a failed extraction the source never closes the session. The model keeps this as written.
- Zod validation of the extracted record (main.ts:23-26) is reduced to an outcome that is either a commit record or a failure.
- `boxen` and `console.log` (main.ts:93-101) are presentation; only the title and message strings are modelled.
- `dotenv.config()` (main.ts:18) and the async suspension points are left out; the code runs strictly in sequence.
- Text.Lower: ASCII case folding only, not the full Unicode `toLowerCase`. For the comparison with "default" the two agree, since no other character lower-cases to one of its letters.
- Strings are sequences of Unicode scalar values rather than UTF-16 code units. This makes no difference to the whitespace set, which lies in the Basic Multilingual Plane.
- Announcement.MessageRoundTrip: requires a colon-free hash; with a colon the message is ambiguous, as `MessageAmbiguousWithColonInHash` shows.
- NavigationProperties.DropdownInSync and NavigationProperties.PolicyIsNeeded are proved against an assumed page behaviour: a click on the picker toggles the dropdown, a click on a row closes it, and extraction leaves it alone. The source does not state this; only the comment at main.ts:79 hints at it.
