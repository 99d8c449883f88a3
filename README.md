# MongoUtils connection and replica-set logic, modelled in Dafny

This project models the decision logic of `MongoUtils`, the helper class the
Pentaho MongoDB steps use to talk to a MongoDB cluster. The model covers:

- **Tag quoting and aggregation** (`quote`, `setupAllTags`). Every tag of every
  replica-set member record is serialised as `"name" : "value"`, the entries are
  deduplicated, and they are appended to the caller's list.
- **Tag-set matching** (`checkForReplicaSetMembersThatSatisfyTagSets`). A member
  record is kept when its tags satisfy at least one requested tag set: OR across
  tag sets, AND across the keys of one set. A record is kept once.
- **Custom write-concern modes** (`extractLastErrorModes`). These are the key
  names of `settings.getLastErrorModes` in the replica-set configuration.
- **Connection options** (`configureConnectionOptions`). This covers the
  connection and socket timeouts and the write concern set on a
  `MongoClientOptions.Builder`.
- **Connection set-up** (`initConnection`). This covers the default port, the
  parsing of the `host[:port],...` seed list, and the choice between a
  single-server client, a seed-list client and `localhost`.
- **Credentials** (`createCredentials`): none, GSSAPI or MONGODB-CR.
- **Member hosts** (`getReplicaSetMembers`): the host split of each member record.

Files:

- `wrappers.dfy`: `Option` and `Result`.
- `java_lang.dfy`: the parts of `java.lang` the code relies on.
  - `Integer.parseInt` and `Integer.toString`.
  - `String.trim`.
  - `String.split` on one literal character. This drops trailing empty
    strings, and returns the whole string when the separator does not occur.
- `java_util.dfy`: the `java.util.List` output parameters, as a class over a
  sequence.
- `tag_quoting.dfy`: `quote` and the serialised tag, with the proof that the
  serialised form determines the name and the value.
- `replica_set_tags.dfy`: member records, `setupAllTags` and the tag-set matcher.
- `last_error_modes.dfy`: `extractLastErrorModes`.
- `kettle_errors.dfy`: the exceptions the connection code raises.
- `connection_options.dfy`: timeouts, write concern, and the options builder.
- `connection.dfy`: `createCredentials`, the seed list, the client shape,
  `initConnection` and the member host split.

The list-filling routines are methods that append to an `ArrayList` object.
Each is proved against a specification function, and the properties of that
function are proved as lemmas. `initConnection` and `getReplicaSetMembers`
are methods with the source's loops. `configureConnectionOptions` updates a
builder object in place.

A member record whose `tags` field is missing is skipped before any tag set
is tried (`MongoUtils.java:719-721`), so it never qualifies, not even for an
empty tag set. `ReplicaSetTags.MatchOneMember` states this: a member with a
`tags` document, even an empty one, satisfies an empty tag set, and a member
without one never does.

## Model

| member | source | states |
|---|---|---|
| TagQuoting.Quote | src/org/pentaho/mongo/MongoUtils.java:573-584 | quote never shortens its text: the result is at least two characters longer |
| TagQuoting.QuoteEscapes | src/org/pentaho/mongo/MongoUtils.java:573-584 | quote always returns the string with every double quote escaped, wrapped in double quotes; its test for a double quote only skips an escape that would change nothing |
| TagQuoting.QuoteWithoutDoubleQuote | src/org/pentaho/mongo/MongoUtils.java:573-584 | a string without a double quote is only wrapped in one pair of double quotes |
| TagQuoting.EscapedQuotesArePrefixed | src/org/pentaho/mongo/MongoUtils.java:577 | after escaping, every double quote has a backslash right before it |
| TagQuoting.UnescapeOfEscape | src/org/pentaho/mongo/MongoUtils.java:577 | escaping is undone by reading backslash-quote back as a quote, backslashes in the original included |
| TagQuoting.CombinedLayout | src/org/pentaho/mongo/MongoUtils.java:645 | where the escaped name, the ` : ` separator and the escaped value sit in a serialised tag |
| TagQuoting.CombinedInjective | src/org/pentaho/mongo/MongoUtils.java:645-646 | two tags with the same serialised entry have the same name and the same value, so deduplicating entries deduplicates pairs |
| TagQuoting.CombinedDiffers | src/org/pentaho/mongo/MongoUtils.java:645-646 | tags that differ in name or value give different entries |
| TagQuoting.QuoteEmbeddedDoubleQuoteExample | src/org/pentaho/mongo/MongoUtils.java:573-584 | the value say"hi is quoted as "say\"hi" |
| ReplicaSetTags.SetupAllTags | src/org/pentaho/mongo/MongoUtils.java:630-655 | the list's earlier contents are kept; the appended entries are pairwise distinct and are exactly the serialised tags of all members, in any hash-set order |
| ReplicaSetTags.AllTagStringsExactly | src/org/pentaho/mongo/MongoUtils.java:633-649 | an entry is collected if and only if some non-null member with a tags document carries that name and value |
| ReplicaSetTags.MemberTagStringsExactly | src/org/pentaho/mongo/MongoUtils.java:637-647 | one member contributes an entry if and only if it is non-null, has a tags document and carries a tag serialised as that entry |
| ReplicaSetTags.AllTagStringsAppend | src/org/pentaho/mongo/MongoUtils.java:634-649 | the entries of two concatenated member lists are the union of their entries |
| ReplicaSetTags.UntaggedMemberContributesNothing | src/org/pentaho/mongo/MongoUtils.java:637-641 | a null member or a member without tags changes nothing, wherever it sits |
| ReplicaSetTags.MemberTagStringsOfOne | src/org/pentaho/mongo/MongoUtils.java:643-647 | a member with a single tag contributes exactly that tag's serialised entry |
| ReplicaSetTags.MemberTagStringsOfTwo | src/org/pentaho/mongo/MongoUtils.java:643-647 | a member with two differently named tags contributes exactly their two serialised entries |
| ReplicaSetTags.ThreeTagStrings | src/org/pentaho/mongo/MongoUtils.java:643-647 | three different tags give three different entries |
| ReplicaSetTags.TwoMembersTagStrings | src/org/pentaho/mongo/MongoUtils.java:634-649 | a member with two differently named tags followed by a member with one tag give exactly those three entries |
| ReplicaSetTags.TwoMemberTagsExample | src/org/pentaho/mongo/MongoUtils.java:634-649 | members tagged {dc east, role secondary} and {dc west} give exactly three distinct entries: the two dc values are not merged |
| ReplicaSetTags.TagSetSatisfied | src/org/pentaho/mongo/MongoUtils.java:723-747 | the inner loop with its early break reports a match exactly when every key of the tag set is present with an equal value |
| ReplicaSetTags.CheckForReplicaSetMembersThatSatisfyTagSets | src/org/pentaho/mongo/MongoUtils.java:711-760 | the output list ends up as the prior list followed by the qualifying members not already present, in member order |
| ReplicaSetTags.MatchAppendMembership | src/org/pentaho/mongo/MongoUtils.java:713-757 | a member is in the output if and only if it was there before, or it is a non-null member with a tags document satisfying some tag set |
| ReplicaSetTags.MatchAppendExtends | src/org/pentaho/mongo/MongoUtils.java:749-754 | the prior contents are kept and the list grows by at most the number of members |
| ReplicaSetTags.MatchAppendAddsNoDuplicate | src/org/pentaho/mongo/MongoUtils.java:752-754 | no appended member already occurs earlier in the list, however many tag sets it satisfies |
| ReplicaSetTags.MatchAppendDistinct | src/org/pentaho/mongo/MongoUtils.java:752-754 | a list without duplicates stays without duplicates |
| ReplicaSetTags.MatchAppendKeepsMemberOrder | src/org/pentaho/mongo/MongoUtils.java:713-758 | appended members come from the member list, in the order of their first occurrence there |
| ReplicaSetTags.MatchOneMember | src/org/pentaho/mongo/MongoUtils.java:718-749 | a member without tags is never added, even for an empty tag set; an empty tag set admits any member with tags; a member with empty tags is added exactly when an empty tag set is requested |
| ReplicaSetTags.TwoMemberMatchExample | src/org/pentaho/mongo/MongoUtils.java:711-760 | asking for dc east selects member a only; asking for dc east or dc west selects a then b |
| LastErrorModes.ExtractLastErrorModes | src/org/pentaho/mongo/MongoUtils.java:537-553 | the list becomes its old contents followed by the mode names in key order, and nothing is added when the configuration, its settings or its modes are missing |
| ConnectionOptions.ResolveTimeout | src/org/pentaho/mongo/MongoUtils.java:162-186 | an empty timeout is left unset; one that is not an int fails; a parsed timeout is applied exactly when positive |
| ConnectionOptions.ResolveTimeoutOfNumeral | src/org/pentaho/mongo/MongoUtils.java:163-172 | a timeout written as an int is applied as that number when positive and ignored otherwise |
| ConnectionOptions.ResolveWriteConcern | src/org/pentaho/mongo/MongoUtils.java:244-302 | fails exactly on a non-empty wTimeout that is not an int; fsync is never set and journaled is carried through; wTimeout defaults to 0; an int writeConcern is a member count, any other non-empty one a mode name, an empty one w = 1 |
| ConnectionOptions.ResolveWriteConcernOfNumerals | src/org/pentaho/mongo/MongoUtils.java:259-282 | numeric w and wTimeout settings come back as exactly those numbers |
| ConnectionOptions.UnsetWriteConcernIsWOne | src/org/pentaho/mongo/MongoUtils.java:250-253 | with nothing set, the default concern equals the one built for w = 1, wTimeout 0, not journaled |
| ConnectionOptions.MajorityIsAMode | src/org/pentaho/mongo/MongoUtils.java:283-288 | "majority" is passed on as a mode name |
| ConnectionOptions.MongoClientOptionsBuilder.constructor | src/org/pentaho/mongo/MongoUtils.java:382 | a fresh builder has none of the modelled settings |
| ConnectionOptions.ConfigureConnectionOptions | src/org/pentaho/mongo/MongoUtils.java:156-304 | the connection timeout, socket timeout and write concern are applied in that order; the first failure stops the rest and leaves the earlier settings applied |
| MongoConnection.CreateCredentials | src/org/pentaho/mongo/MongoUtils.java:87-104 | no credential exactly when the user name is empty and Kerberos is on or the password is empty; Kerberos gives a GSSAPI credential for the user, otherwise a MONGODB-CR credential with the database and password |
| MongoConnection.DefaultPort | src/org/pentaho/mongo/MongoUtils.java:316-355 | the default port is whatever singlePort parses to (any sign, leading zeros included), except that -1 or a singlePort that is not an int gives 27017 |
| MongoConnection.DefaultPortOfNumeral | src/org/pentaho/mongo/MongoUtils.java:355 | a numeric singlePort is used as the default, except -1, which falls back to 27017 |
| MongoConnection.HostPartAddressAsWritten | src/org/pentaho/mongo/MongoUtils.java:355-371 | the loop body as written: any address it yields has a host without ':' |
| MongoConnection.HostPartAddress | src/org/pentaho/mongo/MongoUtils.java:355-371 | the corrected loop body: an address always has a host without ':', and a failure is a malformed host or an unparsable port |
| MongoConnection.HostPartColonExample | src/org/pentaho/mongo/MongoUtils.java:356-362 | the part ":" makes the code as written index an empty array, where the corrected one reports a malformed host |
| MongoConnection.HostPartCorrection | src/org/pentaho/mongo/MongoUtils.java:356-362 | the two loop bodies differ exactly on parts made only of ':' |
| MongoConnection.HostPartWithPort | src/org/pentaho/mongo/MongoUtils.java:362-371 | host:port gives that host, untrimmed, on the port the trimmed port text parses to |
| MongoConnection.HostPartWithoutPort | src/org/pentaho/mongo/MongoUtils.java:355-362 | a part without ':' is that host on the default port |
| MongoConnection.HostPartTooManyFields | src/org/pentaho/mongo/MongoUtils.java:356-360 | a part with more than two ':'-separated fields is a malformed host, whatever lies between the first and the last field |
| MongoConnection.HostPartTrailingColon | src/org/pentaho/mongo/MongoUtils.java:356-363 | a part host: splits to the host alone, so the code as written and the corrected parser both give the host on the default port, with no error |
| MongoConnection.HostPartBadPort | src/org/pentaho/mongo/MongoUtils.java:363-370 | a port that is not an int once trimmed is reported with its untrimmed text |
| MongoConnection.CollectExactly | src/org/pentaho/mongo/MongoUtils.java:353-379 | the seed list succeeds exactly when every part parses and then holds their addresses in order; otherwise it reports the first failing part |
| MongoConnection.CollectFailurePropagates | src/org/pentaho/mongo/MongoUtils.java:357-370 | a part that fails ends the whole parse with its error |
| MongoConnection.HostList | src/org/pentaho/mongo/MongoUtils.java:324-379 | refused with EmptyHostsString exactly when the hosts string is empty; any other failure is a malformed host or an unparsable port |
| MongoConnection.PartFailures | src/org/pentaho/mongo/MongoUtils.java:353-371 | parsing the parts fails only with a malformed host or an unparsable port |
| MongoConnection.HostListAddresses | src/org/pentaho/mongo/MongoUtils.java:352-379 | a seed list that parses holds one address per comma-separated part, each with a host without ':' |
| MongoConnection.ParseSeedList | src/org/pentaho/mongo/MongoUtils.java:316-355 | computes exactly the seed list: an empty hosts string is refused, then the trimmed string is split at ',' and the parts are parsed with the default port |
| MongoConnection.ParseParts | src/org/pentaho/mongo/MongoUtils.java:353-379 | the loop over the parts computes the addresses in order, or stops at the first failing part with its error |
| MongoConnection.HostListOfHostsString | src/org/pentaho/mongo/MongoUtils.java:352-379 | a seed list written as host:port,... is parsed back to exactly those addresses, whatever singlePort is |
| MongoConnection.BlankHostsStringIsEmptyHost | src/org/pentaho/mongo/MongoUtils.java:324-362 | a blank, non-empty hosts string passes the emptiness test and yields one empty host on the default port |
| MongoConnection.EmptyHostListOnlyFromCommas | src/org/pentaho/mongo/MongoUtils.java:352 | the seed list is empty exactly when the trimmed hosts string is nothing but commas |
| MongoConnection.ChooseClient | src/org/pentaho/mongo/MongoUtils.java:398-412 | a seed-list client exactly when there are several addresses, or one and all members are wanted; the seeds are the addresses, or localhost when there are none; the credential and options are passed on |
| MongoConnection.CommasOnlyConnectsToLocalhost | src/org/pentaho/mongo/MongoUtils.java:324-412 | a hosts string that trims to nothing but commas passes the emptiness check and yields an empty seed list, and the client then built is a single server on localhost with the given credentials and options, whatever useAllReplicaSetMembers says |
| MongoConnection.InitConnection | src/org/pentaho/mongo/MongoUtils.java:307-416 | the result is the first failure of seed-list parsing and option configuration, or the chosen client on the seed list with the resolved options |
| MongoConnection.MemberAddress | src/org/pentaho/mongo/MongoUtils.java:873-883 | no address exactly when the host string is empty; a failure is an unparsable port or an empty split; an address never has ':' in its host |
| MongoConnection.MemberAddressWithPort | src/org/pentaho/mongo/MongoUtils.java:876-879 | host:port gives the trimmed host on the port the trimmed port text parses to |
| MongoConnection.MemberAddressWithoutPort | src/org/pentaho/mongo/MongoUtils.java:880-882 | a host without ':' gives the trimmed host on the driver's default port |
| MongoConnection.MemberAddressExtraFields | src/org/pentaho/mongo/MongoUtils.java:875-882 | a member host with more than two ':'-separated fields keeps only the trimmed text before the first ':', without a port and without an error |
| MongoConnection.MemberEntryAddress | src/org/pentaho/mongo/MongoUtils.java:870-883 | a record without a host field fails with a NullPointerException exactly when it is present; no address exactly for a null record or an empty host |
| MongoConnection.MemberAddresses | src/org/pentaho/mongo/MongoUtils.java:868-886 | there are never more addresses than member records |
| MongoConnection.MemberAddressesAppend | src/org/pentaho/mongo/MongoUtils.java:868-886 | the addresses of two concatenated member lists are the concatenation of their addresses, and the first failure wins |
| MongoConnection.NullMemberSkipped | src/org/pentaho/mongo/MongoUtils.java:870-872 | a null member record changes nothing, wherever it sits |
| MongoConnection.ReplicaSetMemberAddresses | src/org/pentaho/mongo/MongoUtils.java:867-892 | the loop computes exactly the member addresses in order, with no address for a missing list |
| JavaLang.ParseIntOfIntToString | src/org/pentaho/mongo/MongoUtils.java:319 | Integer.parseInt reads back any int written by Integer.toString |
| JavaLang.SplitOfJoin | src/org/pentaho/mongo/MongoUtils.java:352 | splitting parts joined with a separator gives the parts back, when none contains the separator and the last is not empty |
| JavaLang.SplitEmptyIffOnlySeparators | src/org/pentaho/mongo/MongoUtils.java:356 | split returns no element exactly for a non-empty string made only of the separator |
| JavaLang.SplitBeforeField | src/org/pentaho/mongo/MongoUtils.java:356 | splitting at a separator followed by a non-empty last field keeps every field, that one last |
| JavaLang.TrimOfTrimmed | src/org/pentaho/mongo/MongoUtils.java:352 | trim leaves a string alone when it neither starts nor ends with a blank |

## Left out

- Read preference is not modelled. This covers parsing the read-preference
  name and the tag-set JSON, and building `NamedReadPreference` or
  `TaggableReadPreference` (`MongoUtils.java:188-242`). The JSON library and
  the read-preference classes are not part of this model.
- `MongoConnection.ParseParts` parses each part with the corrected
  `HostPartAddress`. It differs from the code as written only on a part made
  only of ':', which it reports as `MalformedHost` where the code throws
  `ArrayIndexOutOfBoundsException` (see "## Findings").
  `MongoConnection.HostPartCorrection` states exactly where the two parsers
  differ.
- `MongoConnection.ParseSeedList` inherits that difference through
  `ParseParts`.
- `MongoConnection.HostList` inherits it through `HostPartAddress`.
- `MongoConnection.InitConnection` inherits it through `HostList`.
- `TagQuoting.Quote`: its own contract states only that quote never
  shortens its text. The escaping and the wrapping are stated by
  `TagQuoting.QuoteEscapes`. As a contract on `Quote` they would come into
  every proof about serialised tags and make those proofs too costly.
- A few unchecked exceptions are not modelled. These are the
  `ClassCastException` from casting a `settings` or `getLastErrorModes`
  value that is not a document (`MongoUtils.java:543, 547`), and the
  `NullPointerException` from a null `tagSets` list or a null tag set in the
  matcher (`MongoUtils.java:723-727`).
- `ConnectionOptions.ConfigureConnectionOptions` does not model that a bad
  read preference fails before the write concern is set. The read-preference
  step is not modelled.
- Environment-variable substitution, password decryption and logging are left
  out. They are framework calls, so the strings are taken as already
  substituted. One consequence: `configureConnectionOptions` tests a timeout
  for emptiness before substitution, and the model does not distinguish the
  two.
- The driver is left out. `MongoClient`, `ServerAddress`, `WriteConcern`,
  `MongoCredential` and `MongoClientOptions` are datatypes recording the
  constructor each branch calls. The `UnknownHostException` a `ServerAddress`
  can raise needs DNS, so it is not modelled.
- The network wrappers are left out: `getRepSetMemberRecords`,
  `getLastErrorModes`, `getAllTags`, `getReplicaSetMembersThatSatisfyTagSets`
  and the query half of `getReplicaSetMembers`. They open a client and query
  `local.system.replset`. Their member lists and configuration documents
  are parameters here.
- Kerberos authentication contexts, `getDatabaseNames`,
  `getCollectionsNames` and `main` are left out. They are JAAS logins and
  server round-trips.
- Null strings are modelled as the empty string. `Const.isEmpty` and
  `Integer.parseInt` treat both alike. The exception is the
  `NullPointerException` that `createCredentials` raises on a null password
  with a non-empty user name under normal authentication, which is not
  modelled.
- Tag values are modelled by their `toString()` images, so a null tag value
  has no image of its own. In `setupAllTags` (MongoUtils.java:644) and inside
  a requested tag set (MongoUtils.java:728) a null value throws a
  `NullPointerException`, which is not modelled. In a member's own tags
  (MongoUtils.java:731-737) the code reads a null value as a missing tag and
  reports no match without any exception; the model represents that member
  by leaving the key out, which gives the same verdict. A `tags` field that
  is not a document (a `ClassCastException`) is not modelled.
- `ReplicaSetTags.Member` abstracts every field of a member record other than
  `host` and `tags` into one `id`. This keeps `DBObject` value equality, which
  `List.contains` uses.
- `LastErrorModes.ExtractLastErrorModes` takes the mode names of
  `getLastErrorModes` as a sequence in key order, not as the document's map.
- `ReplicaSetTags.SetupAllTags`: the hash set's iteration order is
  unspecified, so the contract holds for every order and does not fix one.
- `JavaLang.ParseInt` accepts only ASCII digits. `Integer.parseInt` also
  accepts other Unicode decimal digits; that is not modelled.

## Findings

| source | as written | input that shows it | evidently intended | confidence | as-written member | corrected member |
|---|---|---|---|---|---|---|
| src/org/pentaho/mongo/MongoUtils.java:356-362 | `part.split(":")` returns an empty array for a part made only of ':'. `hp[0]` then throws `ArrayIndexOutOfBoundsException`, which escapes `initConnection`'s `throws KettleException` | hostsPorts `":"` or `"db1:27017,::"` | reject the part with the `MalformedHost` KettleException, as for a part with too many ':' | medium, not executed | MongoConnection.HostPartAddressAsWritten, MongoConnection.HostPartColonExample | MongoConnection.HostPartAddress, MongoConnection.HostPartCorrection |
