# A Dafny model of OpenSSL's certificate authority and its neighbours

The project models four parts of OpenSSL and proves what they are for.

* **The certificate authority** (`apps/ca.c`, published by `apps/ca.c` and `apps/ocsp.c`). Its database is a text
  file of rows (type, expiry date, revocation text, serial, file, subject), loaded into a table with an index by serial
  number and, if subjects must be unique, one by subject. The model goes down to the bytes of the file
  (`crypto/txt_db/txt_db.c`), the hexadecimal serials (`crypto/bn/bn_conv.c`) and the UTCTime of revocations
  (`crypto/asn1/a_time.c`), and up to whole runs: any sequence of starts, batches, imports, revocations and updates.
  Modules `TxtDb`, `Hex`, `Time`, `RevInfo`, `CaDatabase` (specification of each operation), `CaTool` (the operations
  as they change the table in place), `CaRuns` (runs in which a save is one step), `Publish` (CRL and OCSP), `Commit`
  (the saves and renames that put serial, index and attribute file in place, with failures and stops anywhere, for any
  relation between the files), `Serials` (the serial numbers over such commits, for every source of serials),
  `CrashRuns` (whole runs over such commits) and `Policy` (the subject of a new certificate).
* **The sparse array** (`crypto/sparse_array.c`, `crypto/README-sparse_array.md`): a radix tree of growing height, with
  allocation failures and the traversal that also frees it, as a partial map. Module `SparseArray`.
* **The option stream of the cms command** (`apps/cms.c`): signers, keys and key parameters are paired up by two pending
  names and a computed number. Module `CmsOptions`.
* **Small parsers and printers**: the `-geninfo` argument and the section list of the cmp command (`apps/cmp.c`),
  and the configutl command (`apps/configutl.c`), which prints a loaded configuration, against the reader that loads
  it (`crypto/conf/conf_def.c`). Modules `GenInfo`, `Sections`, `ConfEscape` (values and entries), `ConfFile` (section
  headers and the whole text), `ConfReload` (the configuration that is built from it) and `ConfReader` (what the reader
  makes of a text in whatever way it is written).

A C string is a sequence of characters without a NUL. Integers are unbounded; where the width matters (the 64-bit
index of the sparse array, `long` in `-geninfo`) it is written out. What the model takes from the rest of the library
(whether a text is an object identifier or a GeneralizedTime, which moment a date stands for, whether a signature can
be made, variable expansion in a configuration) is a parameter, so every result holds whatever those answer.

## Where the code does not do what is promised

Each of these is stated as an equivalence with a condition that a caller can check, and shown at a concrete input.

* A database row is read back as written exactly if no field has a newline, the row does not start with `#`, and no
  field but the last ends in a backslash (`TxtDb.WrittenRowsRoundTrip`, `TxtDb.BackslashHidesTab`).
* A line with a wrong number of fields is to be refused. One with an empty field too many is not
  (`TxtDb.WrongWidthRefused`).
* The tool can write a file that it refuses to load. A revocation made in 2050 or later is written with a four-digit
  year that the tool itself cannot read. An import or revocation of a certificate that is not in the database copies the
  expiry date without a check, and the decoder of certificates checks only its length; a newline or a final backslash in
  it, or in the recorded argument of a revocation, makes the whole file unreadable. After any run the file can be loaded
  exactly if every accepted revocation was made in 1950 to 2049 with an argument that a line can hold, and every
  certificate that was so added has an expiry date that a line can hold and the load check accepts
  (`CaRuns.EveryRunLoadsIff`, `Time.MillenniumHalfUnreadable`, `CaRuns.BadExpiryLocksOut`). Distinct serials and
  subjects, and the permitted changes of rows, do not depend on this (`CaRuns.EveryRunIsSound`,
  `CaRuns.EveryRunEvolves`).
* A revocation writes two characters into the type field of a row. If a row that was entered by hand has an empty type,
  the second one ends the expiry date, which lies next to it, and the next run refuses the file. A revocation changes
  rows only as permitted exactly if it does not meet such a row (`CaDatabase.RevokeEvolves`,
  `CaRuns.EmptyTypeLocksOut`).
* The manual says that `-rand_serial` overrides any use of a serial file. The option does take the serials from random
  numbers, but the serial file is still overwritten with the number after the last one, whatever it held. The file stays
  above every serial that was taken from it, at every moment of such a run and whatever fails, exactly if the number
  after the last random one is above them (and, if there is no serial file, the one kept from before is too). Serials
  taken from the file always meet this, and the `rand_serial` setting of the configuration leaves the file alone
  (`Serials.OptionIsSafeIff`, `Serials.LiveRunsAreSafe`, `Serials.OptionForgetsSerial`).
* Whether subjects are unique is kept in the attribute file, and a run keeps the setting it loaded. A run that stops
  between the two renames of that file leaves none, and the next run takes the configured setting. A commit keeps the
  setting through all failures and stops exactly if it is the configured one, and the one kept from before if there is
  no attribute file. Otherwise an index with two valid rows for one subject can no longer be loaded
  (`Commit.SettingStaysIff`, `CrashRuns.StopChangesSetting`, `CrashRuns.TwinsLockOut`).
* The CRL and the OCSP responder agree, and the CRL lists no serial twice, exactly if every revoked row has its serial
  in upper case and, if it is negative, without a leading zero byte. The load check also admits others
  (`Publish.AgreeExactlyWhenCanonical`, `Publish.LowerCaseSerialDisagrees`). Rows that the tool wrote are fine
  (`Publish.EveryRunAgrees`).
* With `-rcid` the responder's answers do not carry the serial that was asked for. A request gets its serials back
  whatever the database holds exactly if `-rcid` is not given or only serial 0 is asked of known issuers
  (`Publish.RequestDecidesRepeats`, `Publish.RcidForgetsSerial`).
* A `-keyopt` reaches the signer it was given for exactly if no other operation numbers it differently when it is read
  (`CmsOptions.ReachesWhateverTheParameters`, `CmsOptions.SwitchLosesParameter`).
* The manual of the cmp command says that later sections override earlier ones and that the default section is a
  fallback. The code asks the default section right after the first name that it meets from the right, so a default
  value hides the values of the earlier sections. After a list that ends in a separator that first name is the empty
  one, and the default hides even the last section listed (`Sections.PromiseKeptIff`, `Sections.DefaultHidesEarlier`,
  `Sections.TrailingSeparatorHides`, `Sections.LastListedHidden`). A name of more than 40 characters is cut, with a
  warning, and another section is asked: without default values the rightmost value is found in every configuration
  exactly if no listed name is longer (`Sections.AlwaysFoundIff`, `Sections.FortyOneCharacters`).
* The configutl command is to print an effective configuration. It does not escape a back quote, which the reader takes
  for a quotation mark; it prints section names as they are, although a name can have characters that end or spoil a
  header; and a path that ends in a backslash joins the first entry to the comment. For any text that can be loaded, the
  printed file loads as the same configuration exactly if no value has a back quote, every section name consists of name
  characters with blanks inside only and no newline, and no entry of the default section follows a comment with such a
  path (`ConfReload.ReprintedReloadsIff`, `ConfEscape.BackquotesAreLost`, `ConfReload.BracketIsLost`,
  `ConfReload.BackslashSwallows`).
* The design text of the sparse array ties the height to the largest index used to add a value. In the code a write of
  NULL counts as well. The height is the one of the design text exactly if no NULL was written at an index that needs
  more levels; if nothing was added, exactly if nothing was written (`SparseArray.HeightAsDesigned`,
  `SparseArray.NullGrowsTree`).

## Model

| member | source | states |
|---|---|---|
| `TxtDb.ReadWrittenLine` | crypto/txt_db/txt_db.c:77-107 | the reader gives a written row back exactly if no field but the last ends in a backslash, and otherwise finds too few fields |
| `TxtDb.WrittenRowsRoundTrip` | crypto/txt_db/txt_db.c:20-232 | for any rows of the same width, reading what was written gives the rows exactly if each is free of newlines, does not start with `#`, and has no inner field that ends in a backslash |
| `TxtDb.TameRowsRead` | crypto/txt_db/txt_db.c:62-125 | rows that do not start with `#` and have no newline in the last field are read back as they were or fail the read as a whole, never as other rows |
| `TxtDb.BackslashHidesTab` | crypto/txt_db/txt_db.c:87-106 | a concrete row of two fields that makes the whole file unreadable |
| `TxtDb.WrongWidthRefused` | crypto/txt_db/txt_db.c:84-107 | for any number of fields expected and any row that can be separated: its line is read as the row if it has that many fields, as the row without its last field if it has one more and that one is empty, and is refused otherwise |
| `TxtDb.CommentSkipped` | crypto/txt_db/txt_db.c:65-66 | a line that starts with `#` changes nothing of what is read |
| `TxtDb.LastLineDropped` | crypto/txt_db/txt_db.c:62-70 | what follows the last newline of any text is dropped |
| `TxtDb.WriteText` | crypto/txt_db/txt_db.c:187-232 | the writing loop produces exactly the text form of the rows |
| `TxtDb.WriteLineText` | crypto/txt_db/txt_db.c:209-223 | a row is its fields with tabs between them, the tab after the last one turned into a newline |
| `TxtDb.AppendField` | crypto/txt_db/txt_db.c:211-219 | a field is copied with a backslash before every tab |
| `TxtDb.ReadLineText` | crypto/txt_db/txt_db.c:77-107 | the in-place scan splits a line into fields, undoes the escapes, and rejects a line with too few fields or with text after the last one |
| `TxtDb.ReadText` | crypto/txt_db/txt_db.c:20-125 | the reading loop skips comments, stops at the first bad line, and otherwise returns the row of each line in order |
| `Hex.SerialTextRoundTrip` | crypto/bn/bn_conv.c:15-194 | the serial text of every number, zero and negative included, passes the load check and is read back as that number |
| `Hex.SerialOkParses` | apps/ca.c:709-727 | a serial text that passes the load check is read as a number |
| `Hex.SerialOkByBytes` | apps/ca.c:709-727 | the load check accepts exactly the texts that are built, after an optional sign, from one or more pairs of hexadecimal digits |
| `Hex.CanonicalIsFound` | apps/lib/apps.c:1462-1480 | the index finds a loaded serial under the text of its number exactly if it is in upper case and, if negative, does not start with a zero byte |
| `Hex.CanonicalMagnitude` | crypto/bn/bn_conv.c:15-42 | the upper-case texts of whole bytes without a leading zero byte are exactly the texts that numbers are printed as |
| `Hex.SerialTextCanonical` | apps/ca.c:1783-1786 | every serial text that the tool computes is of that kind |
| `Hex.SerialKeysDiffer` | apps/lib/apps.c:1472-1480 | different numbers have different index keys |
| `Hex.KeyGivesValue` | apps/lib/apps.c:1472-1480 | a row found under the text of a number has that number |
| `Time.ClockTextReadable` | crypto/asn1/a_time.c:76-318 | the clock that a revocation prints is accepted as a UTCTime exactly in the years 1950 to 2049 |
| `Time.UtcTimeIff` | crypto/asn1/a_time.c:76-257 | a text is accepted as a UTCTime exactly if it is made of a two-digit year, a month, a day that this month has in 1950 to 2049, hours, minutes, and seconds with Z, or with or without seconds an offset of at most 12:59 |
| `Time.UtcClockPairs` | crypto/asn1/a_time.c:271-318 | in those years every part of the clock can be read off the text that is printed |
| `Time.GeneralizedClockPairs` | crypto/asn1/a_time.c:271-318 | and in the others too, with four digits for the year |
| `Time.MillenniumHalfUnreadable` | crypto/asn1/a_time.c:271-312 | the first clock that is not |
| `Time.ClockTextChars` | crypto/asn1/a_time.c:299-312 | a printed clock has digits and a final Z only |
| `RevInfo.UnpackUndoesMake` | apps/ca.c:2343-2621 | for every revocation type and accepted argument, commas included, unpacking recovers the time, reason, hold instruction and compromise time exactly if the year is 1950 to 2049, and fails otherwise |
| `RevInfo.UnpackShape` | apps/ca.c:2573-2639 | whatever the text, the reason is one of section 5.3.1 of RFC 5280, a hold instruction comes only with a hold, a compromise time only with a compromise, and never both |
| `RevInfo.UnpackMeans` | apps/ca.c:2530-2639 | exactly which texts unpack and to what, by the names and codes of section 5.3.1 of RFC 5280: a readable time, alone or with a reason name in any case; a hold instruction needs an object identifier and has code 6, a compromise time needs a GeneralizedTime and has code 1 or 2 |
| `RevInfo.SameButForCase` | apps/ca.c:2361-2366 | names are compared without regard to the case of the letters A to Z, and to nothing else |
| `RevInfo.CutJoined` | apps/ca.c:2547-2560 | cutting at the first two commas recovers the three parts, even if the last has commas |
| `RevInfo.ReasonFound` | apps/ca.c:2573-2583 | every reason name is found again at its own position, without regard to case |
| `RevInfo.Strlcpy` | apps/ca.c:2414 | copies as much as fits and ends the text, within the buffer |
| `RevInfo.Strlcat` | apps/ca.c:2415-2422 | appends as much as fits and ends the text, within the buffer |
| `RevInfo.FillBuffer` | apps/ca.c:2406-2424 | with the computed length the buffer holds the whole text and its final NUL, and nothing else |
| `RevInfo.MakeRevocationStr` | apps/ca.c:2343-2425 | the revocation text, or a failure for an argument that is not accepted |
| `RevInfo.UnpackRevinfo` | apps/ca.c:2530-2639 | the in-place cut and the search return what the specification of unpacking says, on every text |
| `CaDatabase.Db.InsertedIndexed` | crypto/txt_db/txt_db.c:234-262 | inserting a row that clashes in no index keeps both indexes right |
| `CaDatabase.Db.RevokedIndexed` | apps/ca.c:2190-2192 | a row that becomes revoked leaves both indexes right although they are not touched |
| `CaDatabase.TypeWrite` | apps/ca.c:2190-2191 | over fields that lie one after the other, the two characters written make the type "R" and end the expiry date exactly if the type was empty |
| `CaDatabase.IndexedIsDistinct` | apps/lib/apps.c:1746-1767 | right indexes mean distinct serials and, with unique subjects, distinct subjects among the valid rows, even though the subject index covers more than those |
| `CaDatabase.IndexOfIndexed` | apps/lib/apps.c:1746-1767 | indexing rows with distinct keys gives right indexes |
| `CaDatabase.BatchKeeps` | apps/ca.c:930-1014 | every batch, failed or not, keeps the indexes and only appends rows |
| `CaDatabase.BatchIssues` | apps/ca.c:930-1014 | a batch that starts at serial s and grants k requests issues s to s+k-1 in order, appends exactly those rows and ends at s+k; declined requests take no serial |
| `CaDatabase.BatchSucceedsIff` | apps/ca.c:1806-1903 | a batch goes through exactly if no request is broken, every approved one can be signed, and no serial or (if unique) subject is taken, by the database or by a certificate issued before it in the batch |
| `CaDatabase.RevokeOutcome` | apps/ca.c:2095-2199 | a revocation goes through exactly if it is acceptable; then exactly one row has the serial, it is revoked as asked (and loses its expiry date if its type was empty), and no other row changed, whether or not the serial was known; a failure leaves at most the added row |
| `CaDatabase.UpdateRowsMarksDue` | apps/ca.c:2268-2316 | an update works exactly if every valid row has a readable expiry date; then it marks exactly the due rows and counts them |
| `CaDatabase.UpdateExpires` | apps/ca.c:2268-2316 | an update goes up to the first valid row with an unreadable expiry date, or to the end: the rows before it that are valid and whose date is not after the clock get the type E, nothing else changes, and at the end the number returned is the number of rows that changed |
| `CaDatabase.UpdateTwice` | apps/ca.c:2268-2316 | two updates give what the later one alone gives, and their counts add up |
| `CaDatabase.UpdateAgain` | apps/ca.c:2268-2316 | repeating an update changes nothing and counts 0 |
| `CaDatabase.UpdateIndexed` | apps/ca.c:2303-2306 | an update keeps both indexes right |
| `CaDatabase.EvolvesTransitive` | apps/ca.c:2172-2193 | the permitted changes of a row's status compose |
| `CaDatabase.RevokeEvolves` | apps/ca.c:2172-2193 | a revocation changes rows only as permitted exactly if it is not an accepted one of a row with an empty type and an expiry date |
| `CaDatabase.UpdateEvolves` | apps/ca.c:2284-2312 | an update changes rows only as permitted |
| `CaTool.CaDb.IndexIndex` | apps/lib/apps.c:1746-1767 | succeeds exactly if the rows are distinct, and then builds the indexes of the specification |
| `CaTool.CaDb.CreateSerialIndex` | crypto/txt_db/txt_db.c:147-185 | fails exactly if two serials have the same key |
| `CaTool.CaDb.CreateNameIndex` | crypto/txt_db/txt_db.c:147-185 | fails exactly if two valid rows have the same subject |
| `CaTool.CaDb.Insert` | crypto/txt_db/txt_db.c:234-275 | refuses exactly the rows that clash in an index, and then changes nothing |
| `CaTool.CaDb.DoBody` | apps/ca.c:1806-1944 | the clash checks, the decision, the signature and the insertion have the outcome and the table of the specification |
| `CaTool.CaDb.CertifyAll` | apps/ca.c:930-1014 | the loop over the requests computes the batch of the specification |
| `CaTool.CaDb.DoRevoke` | apps/ca.c:2095-2199 | the recursive revocation calls itself at most once and computes the specification, the write past an empty type included |
| `CaTool.CaDb.DoUpdate` | apps/ca.c:2268-2316 | the in-place loop computes the update of the specification, also when it stops early |
| `CaRuns.SaveLoad` | apps/ca.c:690-728 | every table of rows that the tool can build, once saved, is read back as it was or not at all, and is loaded exactly if every expiry date and revocation text can be held by a line and passes the load check, and subjects are distinct where that is asked for |
| `CaRuns.LoadsIff` | apps/ca.c:683-737 | any table that is read, also one edited by hand, is loaded exactly if every revoked row has a revocation text that can be unpacked and every other row none, every expiry date is readable, every serial is bytes in hexadecimal, no two are the same but for leading zeros, and subjects are distinct where that is asked for; its indexes are then right |
| `CaRuns.StartLoads` | apps/ca.c:683-737 | a start has the table of the file, indexed, or ends at once, exactly by that check; a stop ends the process; without a process nothing happens |
| `CaRuns.UpdateStepDoes` | apps/ca.c:741-765 | an update ends the process and changes no file if a valid row has an unreadable expiry date; otherwise file and table get type E in every valid row whose date is not after the clock, and nothing else changes |
| `CaRuns.NextInv` | apps/ca.c:1285-1294 | every step of a run, in any year, keeps the invariant on the file and on the table in memory, and only permitted changes reach the file |
| `CaRuns.NextLoadable` | apps/ca.c:690-728 | a step spoils a file that can be loaded exactly if it is an accepted revocation outside 1950 to 2049 or with an argument that a line cannot hold, or an accepted import or revocation that adds a row with a bad expiry date; and no step repairs one that cannot |
| `CaRuns.RunInv` | apps/ca.c:266-1320 | so does every sequence of steps |
| `CaRuns.EveryRunIsSound` | apps/ca.c:1806-1862 | after any run from an empty file its serials differ as numbers, with unique subjects no two valid rows share a subject, and the next load indexes exactly these rows or fails over an expiry date or a revocation text |
| `CaRuns.EveryRunLoadsIff` | apps/ca.c:690-728 | after any run the file passes the load check exactly if no step of the run was a spoiling one in that sense |
| `CaRuns.EveryRunEvolves` | apps/ca.c:2172-2193 | between any two moments of a run no row is removed or moved; serial, subject and expiry never change; rows only go from valid to expired and from unrevoked to revoked, and a revoked row never changes |
| `CaRuns.PhaseKept` | apps/ca.c:1285-1294 | every phase, whatever the setting, keeps the indexes and the rows that the tool writes, and changes rows only as permitted |
| `CaRuns.IssueOutcome` | apps/ca.c:898-1048 | a missing serial, a hard error, a refused commit or a batch that grants nothing leaves the index and the serial file alone, and ends the process except in the last case; otherwise the index gets exactly the rows issued, and the serial file the number after the last one: for serials from the file, from -create_serial and from the option -rand_serial, but not with the rand_serial setting |
| `CaRuns.IssueTakesSerials` | apps/ca.c:837-1048 | what a written batch does, by numbers: it starts at the number in the serial file, with -create_serial at that number or, if there is no file, at the one it is created with, or at the random number; it adds a valid row with its subject (the serial if the subject is empty) and expiry for each request granted, numbered consecutively; and it leaves the number after the last one, except with the rand_serial setting |
| `CaRuns.IssueIsCommit` | apps/ca.c:1042-1116 | the renames of an undisturbed commit of as many certificates as were granted leave exactly the serial file that the issue phase is to leave, and in the index, as file-issued serials, the old ones and those of the batch if they came from the file |
| `CrashRuns.NextInv` | apps/ca.c:1042-1294 | every event of a run (a phase begins, one operation of its commit works or fails, the process stops) keeps the invariant on the files and on the table in memory |
| `CrashRuns.EveryMomentIsSound` | apps/ca.c:1042-1294 | at every moment of any runs, with failures and stops anywhere, the live index is missing or a saved table with distinct serials; and if the configured setting is in force at first it always is, and the subjects of valid rows are distinct if it asks for that |
| `CrashRuns.RowsEvolve` | apps/lib/apps.c:1845-1877 | from any moment without a commit to any later moment, with failures and stops anywhere, rows of the live index change only as permitted |
| `CrashRuns.EveryMomentIsOrdered` | apps/ca.c:1108-1116 | at every moment each row of the live index whose serial was taken from the serial file is below the number in the live serial file, if each run takes its serials from that file or writes a number above those it finds |
| `CrashRuns.FiledAreNew` | apps/ca.c:898-1014 | the serials that count as taken from the serial file are, besides the ones before, exactly those of the rows that a step with serials from the file or from -create_serial adds |
| `CrashRuns.CertificatesFirst` | apps/ca.c:1042-1116 | the certificates of a batch are written after the new serial and index are saved and before any live file is replaced; updates and revocations write none |
| `CrashRuns.LoadFailsIff` | apps/ca.c:683-728 | such an index fails to load exactly over an expiry date or revocation text that cannot be read, or over equal subjects of valid rows if the setting then in force asks for distinct ones |
| `CrashRuns.StopChangesSetting` | apps/lib/apps.c:1860-1877 | with a setting other than the configured one, a stop between the last two renames changes it, and a new index with equal subjects of valid rows cannot be loaded |
| `CrashRuns.TwinsLockOut` | apps/ca.c:554-557 | a concrete index: the second certificate for a subject, and a stop before the last rename |
| `CrashRuns.UndisturbedIsSimple` | apps/ca.c:1042-1116 | a phase whose operations nothing disturbs ends in exactly the files and the table of the one step that it is in CaRuns |
| `CaRuns.RevokeStepOutcome` | apps/ca.c:1285-1294 | in any year, a refused revocation ends the process and saves nothing even if the table gained a row; an accepted one leaves in the file one row for the serial, revoked, and the process goes on with that table |
| `CaRuns.RevokeDoes` | apps/ca.c:2095-2199 | what an accepted import or revocation does, by numbers: an import adds a valid row for a number that no row had; a revocation turns the one row with the number, which was not revoked, into a revoked one with the revocation text, after adding it if it was not there |
| `CaRuns.AcceptedIff` | apps/ca.c:2095-2199 | on a table just loaded, a revocation is accepted exactly if its argument is right for its type and the number has a row with the same subject that is not revoked, or has no row and, with unique subjects, no valid row has the subject; an import exactly in the latter case |
| `CaRuns.SpoilingLocksOut` | apps/ca.c:690-728 | after an accepted import or revocation the next run can load the file exactly if it could before, the certificate was known or has a good expiry date, and a revocation was made in the years 1950 to 2049 with an argument that a line can hold |
| `CaRuns.BadExpiryLocksOut` | apps/ca.c:2135-2138 | a concrete certificate with the expiry date 991331000000Z, imported or revoked: the next run refuses the file |
| `CaRuns.EmptyTypeLocksOut` | apps/ca.c:2190-2191 | a hand-made row with an empty type can be loaded; revoking it empties its expiry date, and the next run refuses the file |
| `Publish.MakeCrl` | apps/ca.c:1185-1245 | the loop computes the CRL that `Publish.CrlIsOfRevokedRows` and `Publish.NoCrlIff` speak of, on any rows |
| `Publish.CrlIsOfRevokedRows` | apps/ca.c:1185-1245 | for every table that passes the load check: the CRL has one entry for each revoked row and no other, in the order of the rows, with the number of its serial and the time, reason, compromise time and hold instruction of its revocation text; the CRL number and the extensions are as configured, and the version is 2 exactly if there is an extension of the CRL or of an entry |
| `Publish.NoCrlIff` | apps/ca.c:1196-1211 | on any table, making a CRL fails exactly if a revoked row has a serial that is no hexadecimal number or a revocation text that cannot be unpacked |
| `Publish.CrlVersionAndReasons` | apps/ca.c:1190-1245 | a version 1 CRL has no entry extension, no CRL number and no other extension (section 5.1.2.1 of RFC 5280), and every reason code is 0 to 6 or 8 (section 5.3.1) |
| `Publish.MakeOcspResponse` | apps/ocsp.c:1037-1150 | the loop over the request builds the response that `Publish.ResponseTells` speaks of, error responses included |
| `Publish.StatusIffTrue` | apps/ocsp.c:1102-1148 | for any database, also one that the authority would not load: the responder says of a serial of a known issuer that it is unknown, good, or revoked with a time, reason, invalidity date and hold instruction, or gets no answer, or makes the response fail, exactly if that is so: no row has the serial, its row is valid, its row is revoked with just that, is neither valid nor revoked, or is revoked at an unreadable time |
| `Publish.ResponseTells` | apps/ocsp.c:1052-1150 | the whole response: malformed for an empty request, an internal error exactly if a digest is unknown or a serial of a known issuer is revoked at an unreadable time, and otherwise the truth in this sense about every identifier, in the order of the request, passing over exactly those of known issuers whose row is neither valid nor revoked; the serial is the one asked for, or 0 with `-rcid` |
| `Publish.StatusOfRow` | apps/ocsp.c:1122-1148 | the responder's choice between invalidity date and hold instruction loses nothing of what the CRL entry says |
| `Publish.RespondedIsListed` | apps/ocsp.c:1102-1148 | every revocation that the responder reports is on the CRL with the same time, reason and extensions |
| `Publish.AgreeExactlyWhenCanonical` | apps/ocsp.c:1102-1210 | for every database that passes the load check, the CRL that is made of it and the responder agree on every serial and no serial is listed twice, exactly if every revoked row has a canonical serial |
| `Publish.EveryRunAgrees` | apps/ocsp.c:1102-1210 | that CRL and the responder agree for every database that any run of the tool built, whenever it can be loaded |
| `Publish.LowerCaseSerialDisagrees` | apps/ocsp.c:1189-1210 | a hand-made row with a lower-case serial: the CRL lists the number, the responder does not know it |
| `Publish.AnswersInOrder` | apps/ocsp.c:1070-1150 | the answers are those of the requested identifiers that get one, in order |
| `Publish.RespondSucceedsIff` | apps/ocsp.c:1052-1148 | the response is an error exactly if the request is empty, a digest is unknown, or a revocation time is unreadable, and the last never happens for a database that passes the load check |
| `Publish.AnswersRepeatSerials` | apps/ocsp.c:1091-1106 | answers carry the serials asked for exactly if `-rcid` is not given or a serial other than 0 is asked of a known issuer only for rows that get no answer |
| `Publish.RequestDecidesRepeats` | apps/ocsp.c:1091-1106 | they do so whatever the database holds exactly if `-rcid` is not given or only serial 0 is asked of known issuers |
| `Publish.RcidForgetsSerial` | apps/ocsp.c:1097-1106 | a concrete request: with `-rcid` the question about serial 1 gets an answer about serial 0 |
| `Commit.StepInv` | apps/lib/apps.c:1609-1883 | for any relation between index and serial file: every single save, rename, failed rename, undo or stop keeps the invariant that belongs to it |
| `Commit.ExecInv` | apps/ca.c:1042-1116 | so does every sequence of commits, failures and stops |
| `Commit.CommitKeepsIff` | apps/ca.c:1042-1116 | the relation holds between the live files at every moment of a commit, whatever fails and wherever it stops, exactly if the old index fits no serial and the new serial, the new index fits the new serial, and, if there was no serial file, the old index fits the serial kept from before |
| `Commit.UndisturbedCommit` | apps/ca.c:1042-1116 | a commit that nothing disturbs puts all files in place and keeps the old ones, also the first one, which finds no attribute file |
| `Commit.OneFailureUndone` | apps/lib/apps.c:1609-1883 | if any one operation of a commit fails and the undoing renames work, the live index is the one from before, and so is the setting (or the one kept from before, if there was none); the serial is the one from before until it was rotated, and that is not undone; and what was saved is still there under its new name |
| `Commit.LiveAgainIff` | apps/lib/apps.c:1860-1877 | within a commit the old index is live again after the new one was exactly if the undo of the index renames put it back |
| `Commit.SettingStaysIff` | apps/lib/apps.c:1860-1877 | a commit keeps the setting in force, whatever fails and wherever it stops, exactly if that is the configured one, and the one kept from before if there is no attribute file |
| `Serials.LiveRunsAreSafe` | apps/ca.c:898-1116 | through any runs with serials from the file or from the rand_serial setting, failures and stops anywhere, each file-issued serial in the live index is below the live serial number |
| `Serials.CommitIsSafe` | apps/ca.c:837-1116 | so it is with every source of serials, if each run writes a number above the file-issued serials that it finds |
| `Serials.RunIsSafeIff` | apps/lib/apps.c:1503-1651 | and a run is safe at every moment only then |
| `Serials.OptionIsSafeIff` | apps/ca.c:898-908 | a run with the option -rand_serial is safe at every moment exactly if the number after its last random serial is above every file-issued serial, and the serial kept from before is too if there is no serial file |
| `Serials.OptionForgetsSerial` | doc/man1/openssl-ca.pod.in:347-350 | a concrete run: next serial 1000, 999 issued; one certificate with the random serial 5 leaves 6 as the next serial, and 999 comes again |
| `Serials.NoLaterClash` | apps/ca.c:1108-1116 | while that is so, no serial that a later run takes from the file is in the index it loads |
| `Serials.UndisturbedRun` | apps/ca.c:1042-1116 | an undisturbed run leaves the index of its plan, and the number after the last one in the serial file, also for -rand_serial, unless the rand_serial setting is used |
| `Serials.RunTakes` | apps/ca.c:837-1116 | an undisturbed run of k certificates, for each source of serials: which numbers it takes, which of them count as taken from the file, what is then in the serial file, and the setting it leaves |
| `Policy.GetIndex` | crypto/x509/x509name.c:71-90 | the first entry of a type after a position, or none |
| `Policy.FindMatch` | apps/ca.c:1551-1642 | the inner search of a match line finds an entry of the CA name exactly if there is one |
| `Policy.ApplyItem` | apps/ca.c:1551-1642 | a policy line succeeds exactly if it is satisfied, and then adds the request's entries of its type |
| `Policy.CheckPolicy` | apps/ca.c:1551-1642 | the check succeeds exactly if every line is satisfied, and the subject is then the request's entries type by type in policy order |
| `Policy.AddedAllNumbers` | crypto/x509/x509name.c:188-238 | entries that are added one by one are numbered from 0 and otherwise unchanged |
| `Policy.DeletedGroups` | crypto/x509/x509name.c:101-139 | deleting an entry keeps the numbering consecutive, and which of the others belong together |
| `Policy.RemoveEmails` | apps/ca.c:1757-1768 | the delete loop ends, removes every email entry and nothing else, and keeps the structure of the rest |
| `Policy.MakeSubject` | apps/ca.c:1551-1775 | as a whole: there is a subject exactly if for every line the type is known and the keyword is optional, or supplied and the request has a value of the type, or match and it has one and all its values are values of the CA name; the subject then has for each type the request's entries of it, once per line, in policy order, without email entries exactly if email is off, each a relative name of its own |
| `Policy.AskedIsSubject` | apps/ca.c:1551-1775 | the name that is asked for has, for each type, the entries of the request once for each line of that type, none of type email if email is off, and all in the order of the lines |
| `Policy.ItemOkIffSatisfied` | apps/ca.c:1551-1642 | a line is satisfied, said of the sets of values that the request and the CA name have for its type |
| `SparseArray.HeightIsLeastPower` | crypto/README-sparse_array.md:29-45 | the height for an index is the least h such that the index is below 16 to the power h |
| `SparseArray.IndexHeight` | crypto/sparse_array.c:188-190 | a 64-bit index fits in 16 levels |
| `SparseArray.Tree.PushedLinked` | crypto/sparse_array.c:192-198 | pushing the root down keeps the tree linked and every entry at its index |
| `SparseArray.Tree.HungLinked` | crypto/sparse_array.c:205-206 | so does hanging in a new block |
| `SparseArray.Tree.StoredLinked` | crypto/sparse_array.c:209-214 | so does storing a value or NULL in a leaf block |
| `SparseArray.SparseArray.constructor` | crypto/sparse_array.c:58-63 | a new array is the empty map |
| `SparseArray.SparseArray.Get` | crypto/sparse_array.c:156-172 | the descent finds the value of an index exactly if the map has one |
| `SparseArray.SparseArray.PushDown` | crypto/sparse_array.c:192-198 | growing the tree by a level changes no entry |
| `SparseArray.SparseArray.AddChild` | crypto/sparse_array.c:205-206 | allocating a block on the way down changes no entry |
| `SparseArray.SparseArray.Store` | crypto/sparse_array.c:209-214 | the final assignment writes the map and keeps the count of entries |
| `SparseArray.SparseArray.StoreBelow` | crypto/sparse_array.c:202-215 | the descent with allocation writes the map, or runs out of memory and leaves it |
| `SparseArray.SparseArray.Set` | crypto/sparse_array.c:179-216 | a write updates the map, or fails for want of memory and leaves it; the height stays the least that fits, and after a failure lies between the old one and the one the index needs |
| `SparseArray.SparseArray.DoAll` | crypto/sparse_array.c:65-98 | the traversal visits every entry once in increasing order of index, and every block once, after its children |
| `SparseArray.ReplayIsLastWrite` | crypto/README-sparse_array.md:114-117 | an index holds a value exactly if the last write there was that value |
| `SparseArray.RunWrites` | crypto/README-sparse_array.md:29-117 | after any sequence of writes, each with the memory it finds, the array is the map of the last writes that succeeded; its height lies between what those need and what all of them need, and if none failed it is the least that fits the largest index written |
| `SparseArray.HeightAsDesigned` | crypto/README-sparse_array.md:29-50 | that height is the one for the largest index used to add a value exactly if no NULL was written at an index that needs more levels; if nothing was added, exactly if nothing was written |
| `SparseArray.NullGrowsTree` | crypto/README-sparse_array.md:33-45 | a concrete sequence of two writes with height 2 where the design text gives 1 |
| `CmsOptions.ParseOptions` | apps/cms.c:623-862 | the option loop and the final append accept exactly the streams whose groups are complete, and return the certificates and keys of the groups in order |
| `CmsOptions.ReadOption` | apps/cms.c:623-761 | one round of the loop takes exactly the admissible options and keeps its variables equal to the groups read so far |
| `CmsOptions.AddSigner` | apps/cms.c:623-641 | -signer completes or opens a group |
| `CmsOptions.AddInkey` | apps/cms.c:645-664 | -inkey completes or opens a group, or fails on a key without certificate |
| `CmsOptions.File` | apps/cms.c:744-760 | -keyopt is appended to the last entry or to a new one |
| `CmsOptions.Finish` | apps/cms.c:838-864 | the last group is closed, or the stream rejected |
| `CmsOptions.FindParam` | apps/cms.c:1229-1234 | the search returns the first entry with the number |
| `CmsOptions.SignCommand` | apps/cms.c:1211-1252 | a signing command as a whole accepts exactly the streams of `CmsOptions.AcceptsIffGiven` and signs as `CmsOptions.SignsAsGiven` says |
| `CmsOptions.SignsAsGiven` | apps/cms.c:623-862 | what an accepted stream signs with, said of the options alone: they can be numbered greedily so that every -signer is the certificate of the job with its number, every -inkey its key, a job without -inkey signs with the key in its certificate file, and, if every -keyopt is numbered by its group, the parameters of a job are those with its number |
| `CmsOptions.AcceptsIffGiven` | apps/cms.c:623-862 | a stream is accepted exactly if the last operation given is sign or resign, a -signer or -inkey is given, every -inkey shares its number with a -signer, every -keyopt follows a recipient while encrypting and a -signer or -inkey otherwise, and every recipient read while encrypting loads |
| `CmsOptions.LookupReads` | apps/cms.c:744-760 | if the numbers never go down the list has strictly increasing numbers and a search returns every parameter filed under the number, in order |
| `CmsOptions.WellFiledReaches` | apps/cms.c:729-761 | if every -keyopt is numbered by its group, each reaches the signer of its group and no other |
| `CmsOptions.ReachesIffWellFiled` | apps/cms.c:729-761 | and only then: with parameters that tell the options apart, this is an equivalence |
| `CmsOptions.ReachesWhateverTheParameters` | apps/cms.c:729-761 | for every accepted stream, repeated parameters included: each -keyopt reaches its signer, whatever the parameters are, exactly if every -keyopt is numbered by its group |
| `CmsOptions.FixedFirstReaches` | apps/cms.c:623-862 | with a signing operation given first, a stream is taken exactly if its groups are complete and every -keyopt follows a signer or key, and everything reaches its signer |
| `CmsOptions.EncryptionReaches` | apps/cms.c:1072-1075 | with encryption given first, a recipient gets the parameters between its -recip and the next |
| `CmsOptions.GroupsKeepArguments` | apps/cms.c:623-665 | the groups keep every -signer, -inkey and -keyopt argument once and in order |
| `CmsOptions.SignaturePerSigner` | apps/cms.c:838-862 | an accepted stream has one signature per -signer, in order, and lists of equal length |
| `CmsOptions.SwitchLosesParameter` | apps/cms.c:731-740 | a concrete stream that switches to encryption and back and loses a parameter |
| `GenInfo.HandleGeninfo` | apps/cmp.c:2054-2124 | the loop ends on every argument and hands over the items of the specification, also before an error |
| `GenInfo.HandleItem` | apps/cmp.c:2055-2066 | one round takes one item off the argument |
| `GenInfo.HandleValue` | apps/cmp.c:2072-2108 | integer and string values are told apart, cut and checked as specified |
| `GenInfo.StrtolUndoes` | apps/cmp.c:2072-2077 | the decimal text of any integer is read back, or as the nearest number of 64 bits if it does not fit |
| `GenInfo.PlusIsIgnored` | apps/cmp.c:2072-2077 | a plus sign before a number changes nothing |
| `GenInfo.ItemIffForm` | apps/cmp.c:2054-2108 | any text is read as an item, with a rest, exactly if it consists of blanks, a valid identifier without colon or leading blank, a colon, int: or str: in any case, blanks, a sign and digits of that number or a string without comma, and then nothing or a comma and the rest |
| `GenInfo.ParseGoesOn` | apps/cmp.c:2054-2124 | what follows the documented text of a list of good items is read on, and its items come after those of the list |
| `GenInfo.ErrorAfterItems` | apps/cmp.c:2054-2124 | if it cannot be read, the argument is refused, and the items before it have been handed over |
| `GenInfo.ParseUndoes` | apps/cmp.c:322-325 | the documented text of a list of good items, with any blanks before them and with or without a final comma, is read as the list |
| `GenInfo.ParseGood` | apps/cmp.c:2054-2124 | whatever is parsed is good: valid identifier without colon or leading blank, integer in range, string without comma |
| `GenInfo.ParseUndoesIffGood` | apps/cmp.c:2054-2124 | so the text of a non-empty list is read as that list exactly if all its items are good |
| `Sections.PrevItem` | apps/cmp.c:2581-2612 | the end position goes down strictly, and the item is the next one from the right, cut to 40 characters |
| `Sections.ItemsAreTokens` | apps/cmp.c:2581-2612 | going left yields the tokens of the list from the right, each cut to 40 characters, after one empty name exactly if the list ends in a separator |
| `Sections.WordIsMaximal` | apps/cmp.c:2588-2595 | an item is a maximal run without separators |
| `Sections.ConfGetString` | apps/cmp.c:2615-2626 | the loop returns the value of the first item, from the right, that yields one |
| `Sections.PromiseKeptIff` | apps/cmp.c:2615-2626 | for lists without names of more than 40 characters, that is the value of the rightmost listed section that defines the name, else the default, exactly if the first item from the right has a value and is a listed section, or is the empty name with just that value; or it has none and the default section has none either or makes no difference |
| `Sections.AlwaysFoundIff` | apps/cmp.c:2596-2602 | in every configuration without a default value the value of the rightmost listed section is found, exactly if no listed name has more than 40 characters |
| `Sections.LongNameLost` | apps/cmp.c:2596-2602 | for every list with a longer name, a configuration in which the value of that section is not found |
| `Sections.FortyOneCharacters` | doc/man1/openssl-cmp.pod.in:193-203 | a list of one name of 41 characters |
| `Sections.FortyCharacters` | apps/cmp.c:2596-2602 | one of 40 characters is found |
| `Sections.SeparatorsAre` | apps/cmp.c:2588-2595 | the characters that separate names |
| `Sections.AskedInTurn` | crypto/conf/conf_api.c:78-95 | a section is asked before the default section, and the environment only for the section ENV, after its values and before the default section |
| `Sections.DefaultHidesEarlier` | crypto/conf/conf_api.c:78-95 | a concrete configuration in which the default value hides that of a listed section |
| `Sections.TrailingSeparatorHides` | apps/cmp.c:2581-2626 | for every list that ends in a separator, a default value hides those of all sections listed, unless a section with the empty name has one |
| `Sections.LastListedHidden` | apps/cmp.c:2588-2595 | the list "a,": the value of a is hidden |
| `ConfEscape.PrintEscapedValue` | apps/configutl.c:20-68 | the loop writes the escaped form of the value |
| `ConfEscape.PrintSection` | apps/configutl.c:73-85 | the lines of a section |
| `ConfEscape.CopyUndoesEscaped` | crypto/conf/conf_def.c:642-703 | unquoting an escaped value gives the value back exactly if it has no back quote |
| `ConfEscape.CopyDropsBackquotes` | crypto/conf/conf_def.c:654-667 | reading an escaped value always works and never yields a back quote |
| `ConfEscape.BackquotesAreLost` | apps/configutl.c:24-66 | a concrete value that loses its back quotes |
| `ConfEscape.ScanEscaped` | crypto/conf/conf_def.c:605-640 | an escaped value has no bare newline, hash or dollar, and the removal of comments leaves it whole |
| `ConfEscape.EscapedEnds` | crypto/conf/conf_def.c:332-343 | an escaped value has no bare blank at its ends, no newline, and no continuation mark |
| `ConfEscape.LineRead` | crypto/conf/conf_def.c:349-541 | a printed line is read as one assignment to its name, whatever the value |
| `ConfEscape.SectionLines` | crypto/conf/conf_def.c:252-346 | a printed section has one line for each entry, and then what follows it has its own |
| `ConfEscape.SectionUndoes` | apps/configutl.c:73-85 | a printed section is read back as the section exactly if no value in it has a back quote |
| `ConfFile.HeaderRead` | crypto/conf/conf_def.c:353-378 | a header with a name of words and inner blanks is read as that section |
| `ConfFile.WordsScanned` | crypto/conf/conf_def.c:358-370 | what the reader takes as the name ends with a word, right before the blanks and the bracket |
| `ConfFile.LineShort` | crypto/conf/conf_def.c:349-378 | whatever a header line is, the name read from it is shorter by two at least, and by two only if the line is that name in brackets and the name is good |
| `ConfFile.HeaderSplits` | crypto/conf/conf_def.c:252-346 | a printed header, which its name can spread over several lines, ends a line, and its lines are no longer than it is |
| `ConfFile.LineSilent` | crypto/conf/conf_def.c:349-541 | a line that is not longer than the header of a bad name does not name that section, whatever variables stand for |
| `ConfFile.GroupsSilent` | apps/configutl.c:183-191 | so of the sections with bad names a longest one is never named when the printed file is read |
| `ConfFile.GroupsSplit` | apps/configutl.c:183-191 | sections with good names have one line for each header and each entry |
| `ConfFile.FileSplits` | apps/configutl.c:175-181 | the comment is a line of its own, and with a path that ends in a backslash it takes the line after it |
| `ConfReload.LoadedOk` | crypto/conf/conf_api.c:45-64 | in every configuration that can be loaded, entry names can be read again and differ within a section |
| `ConfReload.BuiltBody` | crypto/conf/conf_def.c:371-377 | from the lines of sections with different names exactly those sections are built, with the same values but for back quotes |
| `ConfReload.FileReloadsIff` | apps/configutl.c:175-191 | the printed file loads as the configuration exactly if every header name is good, no value has a back quote, and no default entry follows a comment whose path ends in a backslash |
| `ConfReload.ReprintedReloadsIff` | apps/configutl.c:98-191 | so for every text that can be loaded, its sections in any order, any path, and variables that depend on the lines before: what was loaded, printed and loaded again |
| `ConfReload.PrintFile` | apps/configutl.c:175-191 | the comment, the default section and the loop over the others write the text of the specification |
| `ConfReload.BracketIsLost` | apps/configutl.c:189 | a section named a]b, which a file can define, is printed as a header of the section a |
| `ConfReload.BackslashSwallows` | apps/configutl.c:175-177 | a concrete file whose only entry is lost |
| `ConfReader.ValueReads` | crypto/conf/conf_def.c:642-703 | any value made of plain characters, characters behind a backslash, and quotations, the last of which may be left open, is read as what they stand for: \n, \r, \t and \b outside quotations are control characters, any other backslash only protects |
| `ConfReader.PiecesOf` | crypto/conf/conf_def.c:642-703 | and every value without a dollar is made so |
| `ConfReader.VariableReads` | crypto/conf/conf_def.c:699-703 | a dollar after such pieces stands for what it is expanded to, after which reading goes on, or fails the value |
| `ConfReader.CommentDropped` | crypto/conf/conf_def.c:605-640 | a number sign that is neither quoted nor behind a backslash starts a comment; all before it stays |
| `ConfReader.EntryLineReads` | crypto/conf/conf_def.c:349-541 | a line with any blanks around its parts, an optional section and two colons, a name, an equal sign, a value in pieces and an optional comment is read as the assignment of that value to that name of that section |
| `ConfReader.HeaderLineReads` | crypto/conf/conf_def.c:353-378 | a header with any blanks around the bracket and the name, and anything after it, is read as that section |
| `ConfReader.LinesJoin` | crypto/conf/conf_def.c:332-346 | a line that ends in one backslash is joined to the next without it |
| `ConfReader.ReturnDropped` | crypto/conf/conf_def.c:310-315 | a carriage return at the end of a line is dropped |
| `ConfReader.GivenAgain` | crypto/conf/conf_api.c:45-64 | a value that is given again replaces the old one and stands last in its section |
| `ConfReader.EntryGoesTo` | crypto/conf/conf_def.c:543-557 | an entry goes to the section it names or the current one, which is made if need be; the current section stays, and no other section changes |
| `ConfReader.HeaderOpens` | crypto/conf/conf_def.c:371-379 | a header makes its section the current one, and keeps the entries it has |
| `ConfReader.NameCharacters` | crypto/conf/conf_def.h:42-59 | which printable characters can stand in a name |
| `ConfReader.OrdinaryPrinted` | apps/configutl.c:20-68 | a value without special characters and blanks at its ends is printed as it is |
| `ConfReader.OthersPrinted` | apps/configutl.c:20-68 | the escape of each special character |

## Left out

- Certificates, keys, signatures, ASN.1 encoding and object identifiers: a certificate is its serial, subject text and expiry text; whether signing works and whether a text is valid are parameters.
- The clock and the calendar: the current time is a parameter, and only the text form of a UTCTime is modelled.
- A subject with a newline: the one-line form that the tool stores escapes it. A bad expiry date of a certificate that the tool makes: the tool checks the dates that it sets.
- An absent revocation field and an empty one: both are the empty text, as in the file.
- Reading lines in pieces of 512 bytes, in the database and in configurations: a line is read whole, so a carriage return at the end of a piece, which the code takes for a line end, is not.
- `Sections.PromiseKeptIff`: lists with longer names, for which `Sections.AlwaysFoundIff` shows that the promise is broken.
- `Serials.CommitIsSafe`: speaks of the serials taken from the serial file; random ones, and rows imported or revoked from outside, can have any serial. Saving a file is one step, each rename is one step.
- `CaRuns.EveryRunLoadsIff`: the save of a phase is one step here; `CrashRuns` has the single operations, but which steps spoil the file is followed only here.
- Two processes on the same files at once: the tool takes no lock, and the runs are one after the other.
- The certificate files that are written between the saves and the renames: writing them is one step that can fail.
- `Publish.CrlIsOfRevokedRows`: gives the order of the entries before they are sorted by serial.
- `Publish.MakeCrl`: sorting by serial, signing, and the update of the CRL number file.
- `Publish.MakeOcspResponse`: signing, the nonce and the times of the response.
- `Policy.MakeSubject`: the preserve and msie_hack options, which replace or rewrite names, and repeated fields of a request that the tool copies into extensions.
- The status query of a serial and the printing of rows: they only read the table.
- `SparseArray.SparseArray.Set`: blocks are entries of a map from addresses to blocks, so the aliasing of C pointers is not modelled; the block size is the default of 16.
- `CmsOptions.ParseOptions`: options that do not touch signers, keys, parameters or recipients; memory failures; the linked parameter list is a sequence.
- `CmsOptions.ReachesIffWellFiled`: with equal parameters an exchange goes unnoticed, so the equivalence for one stream needs them distinct; `CmsOptions.ReachesWhateverTheParameters` states it for every stream.
- `GenInfo.HandleGeninfo`: the NULs that cut the argument in place, and the limits of memory; long has 64 bits.
- `Sections.ConfGetString`: the shared buffer for the item is a result value.
- `ConfReader.EntryLineReads`: a value with a variable or an open quotation, for which `ConfReader.VariableReads` and `ConfReader.ValueReads` say how it is read, and an empty name.
- `ConfReload.ReprintedReloadsIff`: a text with includes or pragmas (recognised but not followed, so such a text does not load here), a path with a newline in it, whose rest would be read as lines of the file, and character tables other than the default one.
- Prompts, messages, option tables, sockets, engines and providers.
