# A verified model of the vigortls command-line layer

This project models the parts of `apps/` in vigortls that carry state or invariants
of their own, and proves what they do. The certificate authority comes first: its
database with hashed indexes, the text file it is stored in, the three files it
commits through `.new` and `.old` renames, and whole histories of runs in which any
system call is refused, any write is cut short and the process is killed anywhere.
Beside it stand the policy loop, extension copying, subject-name parsing into its
buffers, revocation fields and what CRL and OCSP make of them, the ALPN list, the
transfer loop of `s_client`, the session cache of `s_server`, the extra-certificate
list and the output stage of md5crypt.

Each module follows one component. Code that works in place is a method or a class
proved against a function on values (`Steps`, `RunResult`, `Run`, `Copied`, `Parse`,
`Expand`, ...), and the lemmas are about those functions.

| module | component |
|---|---|
| `Prelude`, `SerialKey`, `Asn1Time` | options and strings, hexadecimal serial keys, ASN.1 times |
| `LinearHash`, `TxtDb`, `TxtDbFile`, `LineSyntax` | LHASH, the TXT_DB indexes, the TXT_DB text format and what its lines say |
| `CaDatabase`, `Expiry`, `Revocation`, `StatusServices` | what `ca` and `ocsp` do with the rows |
| `Rotation`, `Commit`, `Outcome`, `Counter`, `SavedText` | the files, whole runs and histories, what a run does in terms of rows, the serial counter over histories, and the text that is reloaded |
| `Policy`, `Extensions`, `SubjectName`, `SubjectBuffers` | from a request to a certificate |
| `Alpn`, `Crlf`, `TransferLoop` | protocol lists, line ends and the `s_client` loop |
| `SessionCache`, `ExtraCerts`, `Md5Crypt` | the linked lists of `s_server` and `s_cb`, and `passwd` |

How the outside world enters: clocks are arguments (`now`); OID and NID lookup, the
string hash and the reason table are parameters; system calls follow a script of
decisions (`Go`, `Refuse`, `Torn`, `Cut`) and calls beyond its end go through; poll
results, read and write counts and `SSL_get_error` codes are a list of events. A
write is `Torn` when the file opens and only part of the text arrives. As in the
code, only the opening of the serial file, the attribute file and the certificate
files is looked at, and for the index the result of `TXT_DB_write`.

Where code and documentation differ, the code is followed: `ca -revoke` and `-valid`
both reach `do_revoke` with type -1 (`apps/ca.c:1310-1311`), and the check of the
subject name before signing (`apps/ca.c:1742-1745`) looks at a row whose name is not
set yet, so uniqueness rests on the insertion.

## Model

| member | source | states |
|---|---|---|
| `Commit.AllRuns` | apps/ca.c:739-1325 | any sequence of runs, executed on the disk, is a history: after each run the serial file, the index and the certificates written out are exactly what `RunResult` says |
| `Commit.OneRun` | apps/ca.c:739-1325 | one invocation that updates, issues and adds by hand, each if asked for, under any script of refusals, short writes and a cut-off, ends with exactly the holdings of `RunResult` |
| `Commit.HistorySound` | apps/ca.c:1031-1158 | at every moment of every history the saved index has canonical, pairwise distinct serials |
| `Commit.RunSound` | apps/ca.c:1031-1158 | no run leaves two rows with one serial in the index |
| `Commit.CommitAccomplished` | apps/ca.c:1069-1158 | when every call goes through, the counter, the index and the certificates are all in place |
| `Commit.CommitIssue` | apps/ca.c:1069-1158 | save both, write the certificates, rotate the serial file and then the index: the resulting files call by call, and success exactly when every call reports it |
| `Commit.CommitIndex` | apps/apps.c:1653-1768 | save and rotate the index: its content after every pattern of failures, success exactly when all calls go through, and the previous index always still there |
| `Commit.LoadIndex` | apps/ca.c:739-790 | a run gets its database exactly when the index and the attribute file are there, every row passes the checks and the indexes can be built; the value in the attribute file, if any, decides whether subjects are unique |
| `Commit.IssueAll` | apps/ca.c:1031-1068 | the certification loop: rows, names and counter after the first hard error or the last request |
| `Commit.CertifiedAreIssued` | apps/ca.c:1031-1068 | rows and counter advance together, one row for each number in order; a counter in use issues nothing |
| `Commit.AllCertified` | apps/ca.c:1031-1068 | signed requests for new subjects are all certified while the numbers from the counter on are free |
| `Commit.UpdatePart` | apps/ca.c:799-825 | `-updatedb` saves the index exactly when a row expired and touches neither the serial file nor the certificates; the run goes on exactly when that went through |
| `Commit.BatchPart` | apps/ca.c:963-1158 | issuing goes on from the rows and names in memory and the index that the updating part left; the run goes on when all was committed or nothing was certified |
| `Commit.AddPart` | apps/ca.c:1301-1325 | a certificate is added by hand exactly when its serial and name are free in memory, and the index saved with it |
| `Outcome.UpdateRun` | apps/ca.c:799-825 | a run that only updates: whatever its calls meet the index is missing, as it was, or holds the first of the marked rows, and when they all go through it holds the rows with exactly the valid ones at or past their UTCTime date marked |
| `Outcome.PlanRows` | apps/ca.c:1031-1068 | what a run sets out to commit: the loaded rows, marked if that was asked for, and one row for each signed request in order, with its number, name and date |
| `Outcome.PlanIff` | apps/ca.c:1031-1100 | there is something to commit if and only if it was agreed to, a request is signed and every request passes: not rejected, its number free, its name neither reserved nor taken earlier in the batch |
| `Outcome.CertifiedIff` | apps/ca.c:1031-1068 | certification ends without a hard error exactly when every request passes, for any mix of verdicts |
| `Outcome.NothingToCommit` | apps/ca.c:1069-1100 | a batch that leads to nothing ends the run with everything as it was, unless all requests pass and none is signed, when the run goes on as if there were none |
| `Outcome.AddRun` | apps/ca.c:1301-1325 | a run that only adds by hand: nothing changes unless number and name are new, and otherwise the index is missing, as it was, or holds the first of the rows with the new one at the end |
| `Outcome.UntroubledRun` | apps/ca.c:739-1325 | a run that does everything and whose calls go through leaves the marked rows, the rows of the requests and the added row in this order, the counter past the new numbers, and their certificates out |
| `Counter.HistoryAheadIff` | apps/ca.c:1031-1158 | the serial file stays above every counter-issued serial of the saved index throughout a history if and only if no run falls behind |
| `Counter.RunAheadIff` | apps/ca.c:1069-1158 | the same for one run, combined ones included; falling behind is decided by the torn number, the fate of the index file and the numbers from before the run |
| `Counter.TornIff` | apps/apps.c:1450-1537 | with a torn number t installed: a missing index never falls behind, an unchanged one exactly when it had a counter-issued serial from t on, and one with the first k rows exactly when one of the earlier rows or the last new number kept is from t on |
| `Counter.KeptIs` | apps/apps.c:1653-1768 | which rows the index file holds after a commit and an addition by hand, for every script |
| `Counter.CommitAhead` | apps/ca.c:1149-1158 | a commit that installs no torn number keeps the counter ahead, whatever fails |
| `Counter.WholeWritesStayAhead` | apps/apps.c:1502-1537 | with renames and openings failing in any way but no write cut short, a run never falls behind |
| `Counter.WholeHistoryStaysAhead` | apps/apps.c:1502-1537 | over any history without short writes the counter is ahead at every moment: the serial file is rotated before the index |
| `Counter.RunRepeatsIff` | apps/ca.c:1069-1158 | a run issues a number twice if and only if one that is out already is among those it writes out |
| `Counter.HistoryRepeatsIff` | apps/ca.c:1069-1158 | no number is issued twice over a history if and only if no run writes out one that is out already |
| `Counter.CanRepeatIff` | apps/ca.c:1031-1158 | there is a run that issues a number a second time if and only if some number that is out is at or above the counter with all numbers up to it free in the index |
| `Counter.AboveRepeatsNothing` | apps/ca.c:1069-1158 | a run repeats nothing while the counter is above all certificates written out |
| `Counter.AboveNeverRepeats` | apps/ca.c:1069-1158 | no number is issued twice over a history in which no run but the last leaves the counter behind |
| `Counter.HistoryReuseIff` | apps/ca.c:1069-1158 | the counter is above all certificates written out at every moment of a history if and only if no run leaves it behind |
| `Counter.RunReuseIff` | apps/ca.c:1069-1158 | for every run: it leaves the counter behind exactly when a certificate is written out and the serial file ends below the new number |
| `Counter.CommitReuse` | apps/ca.c:1104-1158 | the same for one commit |
| `Counter.PlannedIff` | apps/ca.c:1031-1100 | signed requests for new subjects are committed, all of them, if and only if the updating part goes through and all the numbers they need are free; otherwise nothing is |
| `Counter.CertifiedWereFree` | apps/ca.c:1733-1797 | certification that ends well has used free numbers only |
| `Counter.CounterInUseStalls` | apps/ca.c:1733-1797 | a counter that has run into a serial in use commits nothing, whatever is asked |
| `Counter.NumberIssuedTwice` | apps/ca.c:1104-1158 | a history of two runs, the first with a refused rename, that writes out number 1 twice |
| `Counter.HandAddStalls` | apps/ca.c:1301-1325 | a history of two runs: a certificate with the counter's number is added by hand, and issuing then commits nothing |
| `Counter.TornSerialFallsBehind` | apps/apps.c:1450-1500 | a run in which a serial file cut short is installed below the row that was just added |
| `SavedText.HistoryLoads` | crypto/txt_db/txt_db.c:21-242 | at every moment of a history of storable requests, the text of the saved index loads as the rows of the history, and cut short anywhere it loads as what the file model says is left |
| `SavedText.TextLoads` | crypto/txt_db/txt_db.c:21-139 | the text of clean rows cut after p characters loads as the rows whose lines are whole |
| `SavedText.StepCleanIff` | apps/ca.c:2174-2284 | one operation keeps the database storable exactly when the certificate it adds and the hold instruction it writes can be stored |
| `SavedText.StepsClean` | apps/ca.c:2174-2284 | any number of storable operations leaves a storable database |
| `SavedText.RevocationIsClean` | apps/ca.c:2436-2503 | a revocation string can be stored unless it carries a hold instruction that cannot |
| `SavedText.RunClean` | apps/ca.c:1031-1158 | a run with storable requests leaves a storable index, whatever its calls meet |
| `SavedText.TableIsClean` | apps/ca.c:2418-2434 | the reason table can be stored |
| `Rotation.RotateIndex` | apps/apps.c:1700-1768 | success exactly when four renames go through, with both files installed and both kept; after a single refused rename everything but given-up `.old` files is as before; in every case the previous index and attributes survive and the index content is known |
| `Rotation.RotateSerial` | apps/apps.c:1502-1537 | the same for the serial file |
| `Rotation.RotatePair` | apps/apps.c:1516-1533 | two renames, the second undone by a third, under every pattern of failures |
| `Rotation.NothingIsLost` | apps/apps.c:1718-1765 | whatever fails, the old index and attributes are on the disk, the index file holds old or new rows, and no other file is touched |
| `Rotation.InstalledMeaning` | apps/apps.c:1718-1765 | after success the new index and attributes stand under the names, what stood there before under the old names, nothing under the new names, and every other file is untouched |
| `Rotation.NamesDistinct` | apps/apps.c:1703-1717 | under the length test no name is cut short; the six names are distinct if and only if the suffixes avoid five coincidences |
| `Rotation.SaveSerial` | apps/apps.c:1450-1500 | reports success once the file is open, with what arrived of the number in it |
| `Rotation.SaveIndex` | apps/apps.c:1653-1698 | reports success exactly when the database is not empty, its rows are written and the attribute file opens |
| `CaDatabase.RunOps` | apps/ca.c:1959-2416 | every run of issuing, revoking and expiring keeps serials distinct, valid names distinct when subjects are unique, revocation fields in step with the type and parseable, and loses no row; revoked is final and expired never valid again |
| `CaDatabase.StepsKeep` | apps/ca.c:1959-2416 | the same over the value-level steps that `RunOps` refines |
| `CaDatabase.Issue` | apps/ca.c:1733-1997 | the result -1, 0 or 1 and the new row, by serial and by names taken |
| `CaDatabase.DoRevoke` | apps/ca.c:2174-2284 | equals `RevokeResult`, terminating because the second call finds the row that the first inserted |
| `CaDatabase.RevokeMeaning` | apps/ca.c:2174-2284 | at most one row is added, no row with another serial changes, failure changes no earlier row, and after success exactly one row has the serial, revoked with the new string |
| `CaDatabase.RevokeIff` | apps/ca.c:2174-2284 | a revocation succeeds exactly when: the row with the number has the name, is not revoked and a reason was accepted; or there is no such row, the name is free and the certificate is only added or a reason was accepted; with the rows it leaves |
| `CaDatabase.DoUpdateDb` | apps/ca.c:2356-2416 | marks the expiring rows and counts them |
| `CaDatabase.UpdateDbMeaning` | apps/ca.c:2376-2408 | on UTCTime dates exactly the valid rows at or past their date change, the count is the number of changes, a second run changes nothing, and a later run marks a superset |
| `CaDatabase.CheckFields` | apps/ca.c:750-790 | a loaded database is accepted exactly when in every row only a revoked one has a revocation field and it parses, the date is a time and the serial is whole bytes in hexadecimal |
| `CaDatabase.SerialShapeIs` | apps/ca.c:767-789 | an even number of hexadecimal digits, at least two, with or without a minus sign |
| `CaDatabase.CheckedRowsAgree` | apps/ca.c:750-765 | those checks put every revocation field in step with the type |
| `CaDatabase.GetCertificateStatus` | apps/ca.c:2286-2354 | a hexadecimal text, padded or not, gets the row of its number exactly when its hash meets that of the key, which is so whenever both or neither start with a zero; any other text is unknown |
| `CaDatabase.SpellingsMeet` | apps/ca.c:2296-2322 | a spelling without redundant zeros always meets |
| `CaDatabase.LookupSerial` | apps/ocsp.c:1003-1022 | the responder's lookup finds the row of the number |
| `Expiry.UtcExpiryIsChronological` | apps/ca.c:2381-2408 | the two-digit-year comparison is the calendar order on UTCTime (section 4.1.2.5.1 of RFC 5280) |
| `Expiry.ExpiryIsMonotone` | apps/ca.c:2381-2408 | what is expired now is expired later |
| `Expiry.FourDigitYears` | apps/ca.c:2381-2408 | for dates from 2050 on, exactly when the comparison still gives the right answer |
| `Expiry.CertificateUntil2050` | apps/ca.c:2381-2408 | a certificate good until 2050 is marked expired in 2026 |
| `Revocation.MakeRevocationStr` | apps/ca.c:2436-2503 | refuses or prints time, reason and extra field |
| `Revocation.UnpackRevinfo` | apps/ca.c:2602-2705 | splits at the first two commas and accepts by time, reason name and extra field |
| `Revocation.RevocationRoundTrip` | apps/ca.c:2436-2705 | whatever is printed under a UTCTime clock is accepted back with the time, reason code and extra field asked for, commas in the argument included |
| `Revocation.PrintedReason` | apps/ca.c:2436-2503 | a reason is printed as the time, a comma and the name in the table that equals it ignoring case, and refused when none of the first eight does |
| `Revocation.PrintedForms` | apps/ca.c:2436-2503 | the literal text for a hold instruction, a key time, an authority key time and no reason |
| `Revocation.ReadForms` | apps/ca.c:2602-2705 | what is read from a time alone and from a time, a reason and an argument, with the reason numbers of section 5.3.1 of RFC 5280; anything else is refused |
| `Revocation.FieldForms` | apps/ca.c:2602-2705 | every field has one of those forms |
| `Revocation.RoundTripNeedsUtcClock` | apps/ca.c:2436-2705 | under a GeneralizedTime clock nothing that is printed is accepted back |
| `Revocation.ReasonsOk` | apps/ca.c:2418-2434 | the reason table has no commas and no two names that differ only in case |
| `Revocation.CrlAndOcspAgree` | apps/ca.c:2512-2561 | the CRL entry and the OCSP answer made from one field carry the same reason and extra field |
| `Revocation.ExtensionsSayWhat` | apps/ca.c:2512-2561 | an entry has a reason extension exactly when there is a reason, and then that reason; likewise for the invalidity date and the hold instruction |
| `StatusServices.MakeCrl` | apps/ca.c:1225-1280 | no list exactly when a revoked row does not parse; the entries of the revoked rows; version 2 exactly when the list has extensions or a revoked row says more than its time |
| `StatusServices.MakeRevoked` | apps/ca.c:2512-2561 | the entry of a row, and whether it has extensions |
| `StatusServices.UnpackRevinfoIsSound` | apps/ca.c:2602-2705 | the parser that the two services share meets what they rely on: a reason whenever there is an extra field |
| `StatusServices.EntriesMeaning` | apps/ca.c:1225-1280 | entries and revoked rows that parse correspond, both ways |
| `StatusServices.EntriesInOrder` | apps/ca.c:1225-1280 | one entry for each revoked row in database order, with its number, its time and what its field says |
| `StatusServices.MakeOcspResponse` | apps/ocsp.c:905-1001 | malformed without ids, an internal error exactly when an id has a digest that is not known, and otherwise the answers to the ids in order |
| `StatusServices.AnswerMeaning` | apps/ocsp.c:950-990 | by the rows: good exactly for a valid one, unknown exactly for another authority or no row, revoked exactly for a revoked one with what its field says, and nothing for any other |
| `StatusServices.StatusesMeaning` | apps/ocsp.c:930-990 | the statuses of a response are those of the answered ids in order, each good, unknown or revoked exactly when the rows are |
| `StatusServices.OneStatusPerId` | apps/ocsp.c:930-990 | one status for each id in order if and only if no id is about an expired row |
| `StatusServices.ExpiredGoesUnanswered` | apps/ocsp.c:950-990 | a request about an expired certificate gets no status |
| `StatusServices.CrlMatchesOcsp` | apps/ca.c:1225-1280 | a serial is on the list if and only if the responder says revoked, with the same time, reason and extra field |
| `TxtDb.CreateIndex` | crypto/txt_db/txt_db.c:160-194 | fails exactly when two qualifying rows clash, and otherwise indexes every qualifying row |
| `TxtDb.Db.GetBySerial` | crypto/txt_db/txt_db.c:141-158 | finds a row that compares equal with an equal hash if there is one; on canonical keys it is the linear scan by number |
| `TxtDb.Db.Insert` | crypto/txt_db/txt_db.c:244-278 | refused exactly when the serial or a taken name clashes, and otherwise appended and filed |
| `TxtDb.Db.Change` | apps/ca.c:2262-2276 | overwriting a type in place keeps both indexes valid, so taken names stay taken |
| `TxtDb.Db.ValidIsDistinct` | apps/apps.c:1629-1651 | the hashed indexes imply distinct serials and, when unique, distinct valid names |
| `TxtDb.Open` | apps/apps.c:1629-1651 | opens exactly when serials are distinct and, if required, valid names too |
| `TxtDb.ScanIsIndexed` | apps/apps.c:1354-1375 | the serial index answers as the linear scan does |
| `LinearHash.Insert` | crypto/lhash/lhash.c:73-104 | the table is the map with the key replaced, the displaced row is returned, and one bucket is added exactly at the load limit |
| `LinearHash.Retrieve` | crypto/lhash/lhash.c:136-153 | a key is found exactly when it is filed with the same hash |
| `LinearHash.Expand` | crypto/lhash/lhash.c:189-231 | splitting a bucket, and doubling when all are split, leaves the map as it is |
| `LinearHash.GetRn` | crypto/lhash/lhash.c:266-294 | the bucket and the position in its chain |
| `SerialKey.ValueOfKey` | apps/ca.c:1733-1736 | a printed serial is canonical and determines its number |
| `SerialKey.CanonicalIsKey` | crypto/bn/bn_print.c:25-57 | the canonical texts are exactly the printed ones |
| `SerialKey.CanonicalSame` | apps/apps.c:1366-1375 | on canonical keys the comparison is equality of numbers |
| `SerialKey.HashFollowsComparison` | apps/apps.c:1354-1375 | keys that compare equal hash alike if and only if both or neither start with a zero |
| `SerialKey.HashMissesPaddedKey` | apps/apps.c:1354-1375 | two spellings of one number that compare equal and hash differently |
| `SerialKey.StatusReachesKey` | apps/ca.c:2296-2322 | every spelling in either case without redundant zeros is normalised to the stored key |
| `SerialKey.TextComparesToKey` | apps/apps.c:1366-1375 | every text of a number, padded or not, compares equal to the key of the number |
| `SerialKey.OtherTextMatchesNothing` | apps/apps.c:1366-1375 | a text that is not hexadecimal compares equal to no key |
| `TxtDbFile.FileRoundTrip` | crypto/txt_db/txt_db.c:21-242 | rows come back from their text if and only if each can be stored |
| `TxtDbFile.TrailingBackslashIsLost` | crypto/txt_db/txt_db.c:196-242 | the row of a certificate whose date ends in a backslash does not come back |
| `TxtDbFile.SavingKeepsWhatWasLoaded` | crypto/txt_db/txt_db.c:21-242 | whatever could be read comes back unchanged when written and read again |
| `TxtDbFile.TornIsRead` | crypto/txt_db/txt_db.c:21-139 | a text cut anywhere is read as the rows whose lines are whole |
| `TxtDbFile.DatabaseRoundTrip` | apps/apps.c:1566-1627 | a certificate database comes back if and only if its rows are clean |
| `TxtDbFile.IssuedRowIsClean` | apps/ca.c:1959-1997 | of an issued row only the date and the subject decide |
| `TxtDbFile.ReadDb` | crypto/txt_db/txt_db.c:21-139 | the growing line buffer, comments and escapes read what `Read` says |
| `TxtDbFile.SplitFields` | crypto/txt_db/txt_db.c:80-125 | the escape loop of one line |
| `LineSyntax.SplitIff` | crypto/txt_db/txt_db.c:80-118 | a line gives these fields if and only if it is their escaped text, with or without one more tab at its end, and they are the right number |
| `LineSyntax.LinesAreRead` | crypto/txt_db/txt_db.c:57-130 | a file is read as its lines without the comments, each giving one row, and is refused exactly when one of them has the wrong number of fields |
| `LineSyntax.CommentRead` | crypto/txt_db/txt_db.c:57-71 | a comment is passed over as far as the buffer reaches; the rest of a longer one is read as the next line |
| `LineSyntax.LongCommentIsData` | crypto/txt_db/txt_db.c:57-71 | a comment of 512 characters whose last one becomes a row |
| `TxtDbFile.WriteRow` | crypto/txt_db/txt_db.c:205-238 | a line is written inside a buffer of twice the text and one character for each field |
| `TxtDbFile.WriteDb` | crypto/txt_db/txt_db.c:196-242 | all lines in order |
| `Policy.ApplyPolicy` | apps/ca.c:1595-1696 | succeeds if and only if every line is met; the subject is then the request's entries in policy order, and those that a "match" line names are in the authority's name |
| `Policy.TakeField` | apps/ca.c:1629-1693 | one policy line with its two nested cursors |
| `Policy.KeywordsMean` | apps/ca.c:1595-1696 | "optional" asks nothing, "supplied" an entry, "match" an entry and that all of them are in the authority's name; any other keyword and an unknown type are refused |
| `Policy.SubjectInOrder` | apps/ca.c:1595-1696 | the subject by positions: policy lines in order, under each the request's entries of that type in request order, all of them |
| `Policy.FindInCa` | apps/ca.c:1655-1678 | an equal entry of the authority is found exactly when there is one |
| `Policy.SubjectMembers` | apps/ca.c:1595-1696 | the subject holds exactly the request entries whose identifier the policy names |
| `Policy.MatchedAreInCa` | apps/ca.c:1650-1680 | an entry of the subject that a line with the keyword "match" names is in the authority's name |
| `Policy.SelfSignedMatchIsSupplied` | apps/ca.c:1595-1696 | when the request is its own authority a "match" line is met exactly when the "supplied" line is |
| `Policy.DropEntries` | apps/ca.c:1714-1731 | every e-mail entry is removed and nothing else |
| `Policy.WithoutPositions` | apps/ca.c:1714-1731 | what is left are the other entries in their order |
| `Extensions.Certificate.CopyExtensions` | apps/apps.c:1138-1176 | the list of the certificate becomes `Copied` of the two lists |
| `Extensions.CopiedEntries` | apps/apps.c:1138-1176 | adding: its own and the first of each identifier it lacks; replacing: the last of each requested identifier and its own others; both ways |
| `Extensions.CopiedOids` | apps/apps.c:1138-1176 | no identifier of either side is lost and none is invented |
| `Extensions.CopiedInOrder` | apps/apps.c:1138-1176 | by positions: its own entries in order, those replaced left out, and then the first or the last of each identifier in the order of the request |
| `Extensions.FirstOnesMeaning` | apps/apps.c:1148-1168 | what is added has the missing identifiers, each once |
| `Extensions.LastOnesMeaning` | apps/apps.c:1148-1168 | what replaces has the requested identifiers, each once |
| `SubjectName.ParseIsSyntax` | apps/apps.c:1832-1889 | the scanner accepts exactly the strings of the declarative syntax, with the list they spell |
| `SubjectName.NameRoundTrip` | apps/apps.c:1810-1889 | printing with any sufficient escaping and parsing gives the list back |
| `SubjectName.OnlyALoneSlashOverruns` | apps/apps.c:1844-1858 | the terminator is read past if and only if the subject is "/" |
| `SubjectBuffers.ParseName` | apps/apps.c:1810-1919 | the loops on the buffer and the three arrays compute the name that `Parse` gives, every write in bounds |
| `SubjectBuffers.BuildName` | apps/apps.c:1891-1912 | the name holds the known, non-empty entries in order with their set marks |
| `SubjectBuffers.KnownInOrder` | apps/apps.c:1891-1912 | the entries by positions: those of the elements with a known type and a value, in order, each with its value and mark |
| `SubjectBuffers.PrintedNameIsBuilt` | apps/apps.c:1810-1919 | a list of known, non-empty elements that is printed and parsed gives a name with one entry for each, in order |
| `Alpn.NextProtosParse` | apps/apps.c:2201-2229 | refused exactly for 65535 bytes or a component over 255; otherwise the length-prefixed encoding (section 3.1 of RFC 7301), each byte written once: what is not a comma stands one place further on, and each length reaches to the next comma or the end |
| `Alpn.ParsedListDecodes` | apps/s_server.c:460-491 | the walkers read back exactly the components |
| `Alpn.DecodeIsInverse` | apps/s_client.c:175-196 | a list is decoded if and only if its encoding stands there |
| `Alpn.SplitIsExact` | apps/apps.c:2201-2229 | splitting at commas loses nothing |
| `Alpn.Walk` | apps/s_client.c:175-196 | the printing loop visits every name and stops at the length |
| `Alpn.ShownInOrder` | apps/s_client.c:184-189 | the names in order with a comma and a space between them |
| `Alpn.SelectNextProto` | ssl/ssl_lib.c:1414-1450 | the server's first name that the client has, none before it being one, otherwise the client's first, and a read past the end of an empty client list |
| `Crlf.ExpandInPlace` | apps/s_client.c:1252-1266 | the backward loop turns the buffer into the text with every LF as CR LF, in bounds |
| `Crlf.CollapseExpand` | apps/s_server.c:1454-1468 | the expansion can be undone |
| `Crlf.ExpandByByte` | apps/s_client.c:1252-1266 | every byte is expanded by itself: 13 and 10 for 10, any other as it is |
| `TransferLoop.Client.Loop` | apps/s_client.c:1063-1287 | the loop with its flags, buffers and offsets refines the machine `Run` |
| `TransferLoop.Client.Iterate` | apps/s_client.c:1063-1287 | one round refines `Next` |
| `TransferLoop.RunIsSound` | apps/s_client.c:907-1287 | at every point: one of reading the connection and writing the terminal, output pending when writing, input read only when nothing is waiting |
| `TransferLoop.NothingTypedIsLost` | apps/s_client.c:1109-1287 | what was accepted and what waits are the lines typed, commands apart, and a line is taken only when all before it is out |
| `TransferLoop.LossIff` | apps/s_client.c:1109-1287 | received bytes are all shown or waiting if and only if no round drops them |
| `TransferLoop.CalmRunsLoseNothing` | apps/s_client.c:1109-1287 | a caller's condition on the events under which nothing is dropped |
| `TransferLoop.HangUpLosesBytes` | apps/s_client.c:1160-1235 | from the start of the loop, a byte that arrives before a hang-up with more data is never shown |
| `TransferLoop.BranchNeedsFlags` | apps/s_client.c:1087-1240 | each branch only with its flag, apart from reading on hang-up |
| `TransferLoop.ChooseIff` | apps/s_client.c:1063-1240 | which branch a round takes, exactly, for every combination of flags and poll results |
| `TransferLoop.MustSend` | apps/s_client.c:1109-1127 | when the connection can be written, as much of what waits as it takes goes out, and the terminal is read again once all is out |
| `TransferLoop.MustShow` | apps/s_client.c:1169-1190 | when only the terminal can be written, it is shown as much of what waits as it takes |
| `TransferLoop.MustReceive` | apps/s_client.c:1191-1215 | when nothing can be written and there is something to read, at most 1024 bytes are received and wait to be shown |
| `TransferLoop.MustTake` | apps/s_client.c:1244-1287 | when nothing else can be done a line is taken: a command, the end, or its bytes with line ends expanded if asked for |
| `TransferLoop.MustWait` | apps/s_client.c:1114-1235 | what a write or a read that would block does to the flags and to what waits to be shown |
| `TransferLoop.EndsIff` | apps/s_client.c:1063-1287 | exactly which rounds end the loop |
| `TransferLoop.AllIsSent` | apps/s_client.c:1109-1127 | over rounds in which the connection takes something all that waits goes out, and the terminal is then read again |
| `SessionCache.RunOps` | apps/s_server.c:2228-2331 | over any history every lookup gives the newest session of that id not yet deleted |
| `SessionCache.CacheIsStacks` | apps/s_server.c:2228-2331 | adding pushes, deleting pops, looking up reads the top, other ids are untouched |
| `SessionCache.CacheIsAMapIff` | apps/s_server.c:2228-2331 | the cache is a finite map throughout a history if and only if no deletion meets an id stored twice |
| `SessionCache.NeverReadded` | apps/s_server.c:2228-2331 | the cache is a finite map throughout when no live id is added again |
| `SessionCache.ReaddedIdComesBack` | apps/s_server.c:2228-2331 | deleting a re-added id uncovers the older session |
| `SessionCache.Cache.Add` | apps/s_server.c:2236-2270 | a new first node |
| `SessionCache.Cache.Get` | apps/s_server.c:2272-2284 | the first node with these bytes |
| `SessionCache.Cache.Del` | apps/s_server.c:2286-2309 | unlinks exactly that node |
| `SessionCache.LinkedIsAcyclic` | apps/s_server.c:2228-2331 | the list has no cycle |
| `ExtraCerts.CommandLine` | apps/s_cb.c:1006-1215 | all options are taken if and only if each fits, and the callback then sees the records in command-line order, each holding exactly the arguments of the options about it |
| `ExtraCerts.OptionsGroup` | apps/s_cb.c:1061-1215 | an option fits unless it is unknown, lacks its argument or is a second key or chain for its record; a record has the certificate, key and chain of the options between its `-xcert` and the next, and the formats given last up to it, PEM if none |
| `ExtraCerts.CertsInOrder` | apps/s_cb.c:1135-1208 | the certificates of the records are the `-xcert` arguments in order |
| `ExtraCerts.ArgsExcert` | apps/s_cb.c:1135-1215 | one option on the linked list: the answer and the new records |
| `ExtraCerts.List.Prepend` | apps/s_cb.c:1061-1080 | a fresh head, linked both ways |
| `ExtraCerts.List.Visit` | apps/s_cb.c:1006-1054 | to the tail by `next` and back by `prev` visits the records, oldest first |
| `ExtraCerts.LinkedIsAcyclic` | apps/s_cb.c:1061-1080 | the list has no cycle |
| `Md5Crypt.Finish` | apps/passwd.c:247-345 | goes through exactly when the assertions on the lengths hold, and the buffer then holds the whole output, at most 37 characters |
| `Md5Crypt.PackingIsLossless` | apps/passwd.c:310-345 | a decoder recovers every digest from its 22 letters |
| `Md5Crypt.PackingIsOnto` | apps/passwd.c:310-345 | the outputs are exactly the 22-letter strings whose last letter is one of the first four |
| `Md5Crypt.SourceIsAPermutation` | apps/passwd.c:314-327 | stepping by 6 modulo 17 with two fixed slots takes every byte once |
| `Md5Crypt.SourceTable` | apps/passwd.c:314-327 | the place that each byte is taken from |
| `Md5Crypt.QuadIsANumber` | apps/passwd.c:329-343 | the four values are the base-64 digits of three bytes, the least significant first |
| `Md5Crypt.LettersInOrder` | apps/passwd.c:19-27 | the 64 letters in the order of their codes |
| `Md5Crypt.OutputIsInjective` | apps/passwd.c:247-345 | the output determines magic, salt and digest |
| `Md5Crypt.Pack` | apps/passwd.c:329-345 | the packing loop writes exactly the 22 letters and the terminator |

## Findings

Properties that one would expect and that the code does not meet on every input,
each with an input that shows it and the exact condition under which it holds.

| property | fails on | holds exactly when |
|---|---|---|
| a serial number is never issued twice | `Counter.NumberIssuedTwice`: the rename of the serial file fails after the certificate is out, and the next run issues the number again | `Counter.HistoryRepeatsIff`: no run `Republishes`; from a given moment it can happen exactly when a number is `InReach` (`Counter.CanRepeatIff`); never while no run `LeavesBehind` the counter (`Counter.AboveNeverRepeats`) |
| the serial file is ahead of the index | `Counter.TornSerialFallsBehind`: the write of the serial file is cut short unnoticed | `Counter.RunAheadIff`, `Counter.HistoryAheadIff`: no run `FallsBehind`; always when no write is cut short (`Counter.WholeHistoryStaysAhead`) |
| issuing goes on from the serial file | `Counter.HandAddStalls`: a certificate added by hand has the next number | `Counter.PlannedIff`: the numbers that the requests need are all free |
| a date in or after 2050 has not expired | `Expiry.CertificateUntil2050` | `Expiry.FourDigitYears` |
| serials that compare equal hash alike | `SerialKey.HashMissesPaddedKey` | `SerialKey.HashFollowsComparison` |
| every id in an OCSP request gets a status | `StatusServices.ExpiredGoesUnanswered` | `StatusServices.OneStatusPerId` |
| a revocation field that is printed is accepted back | `Revocation.RoundTripNeedsUtcClock`: the clock from 2050 on | `Revocation.RevocationRoundTrip`: while the clock is a UTCTime |
| received bytes are shown or waiting | `TransferLoop.HangUpLosesBytes`: the connection hangs up before the terminal takes them | `TransferLoop.LossIff`: no round `Drops`; always on `Calm` events (`TransferLoop.CalmRunsLoseNothing`) |
| a subject is read within its string | `SubjectName.OnlyALoneSlashOverruns`: "/" | the same lemma: every other subject |
| deleting a session id removes it | `SessionCache.ReaddedIdComesBack` | `SessionCache.CacheIsAMapIff` |
| a saved database is loaded again | `TxtDbFile.TrailingBackslashIsLost` | `TxtDbFile.DatabaseRoundTrip`, kept by operations exactly when `SavedText.StepCleanIff` says |
| a line that starts with # is a comment | `LineSyntax.LongCommentIsData` | `LineSyntax.CommentRead`, `LineSyntax.LinesAreRead`: its line is shorter than the buffer less one |

## Left out

- Option parsing, usage text, key and certificate loading, signing, and the EVP, BN, ASN.1, BIO and SSL libraries: flat or foreign code; their answers are parameters.
- Time validity: `check_time_format` and `make_revocation_str` call the `set_string` functions with a null object (`apps/ca.c:2170`, `apps/ca.c:2480`), which the functions as they stand write or read through (`crypto/asn1/a_time_tm.c:214-231`, `crypto/asn1/a_time_tm.c:416-420`). `Asn1Time` is a stated model: a string is a time when the parser behind those functions accepts it.
- `-create_serial` and its random numbers: the counter is deterministic.
- Serial numbers below zero, and numbers of more than 35 bytes, whose text is continued on a second line.
- Commit.AllRuns: the attribute file is read and written by every run, but what it holds from run to run is not part of the holdings; `Unique` reads it afresh at each run.
- Commit.AllRuns: revoking with a type other than -1 is not reached by `ca_main`; it is covered by `CaDatabase.RunOps`.
- Commit.LoadIndex: needs canonical, distinct serials in the index, which every run keeps; an index edited by hand to hold padded or lower-case serials is not modelled.
- TxtDb.CreateIndex: the same, because on other serials the hash does not follow the comparison (`SerialKey.HashFollowsComparison`).
- TxtDb.Open: the same.
- SavedText.HistoryLoads: only one direction over histories; the exact condition is per operation (`SavedText.StepCleanIff`), since a run can drop an unstorable row again when its commit fails.
- LinearHash.Insert: deletion and the shrinking of the table, which the programs never use; the string hash is a parameter.
- TransferLoop.Client.Loop: DTLS timeouts, STARTTLS, reconnecting, and a terminal read below zero with end-of-file ignored.
- Crlf.ExpandInPlace: of the body of `s_server` only this loop.
- SubjectBuffers.BuildName: the set numbers that `X509_NAME_add_entry` makes of the marks.
- Policy.ApplyPolicy: set numbers in the subject, string types and the upper bounds of name fields.
- ExtraCerts.ArgsExcert: loading the certificates and keys; the fields of an entry are one record.
- Md5Crypt.Finish: the digest itself and its thousand rounds.
- StatusServices.MakeCrl: sorting the entries, the signature and the dates of the list.
- Allocation failures, freeing order, and a path component that is not a directory.
- The thin tools (`dh`, `dsa`, `rsa`, `ec`, `pkcs7`, `pkcs8`, `pkey`, `prime`, `rand`, `nseq`, `spkac` and the like): wrappers or easy loops.
