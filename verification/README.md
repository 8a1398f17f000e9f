# MailCatcher message selection, in Dafny

This project models the message-selection layer of the Codeception MailCatcher
module (`src/Module/MailCatcher.php`). The module asks a MailCatcher service for
the list of captured messages and then picks one of them:

- `messages()` sorts the list newest first. The sort key is the message's
  `created_at` text followed directly by its id.
- `lastMessage()` takes the head of that sorted list.
- `lastMessageFrom($address)` takes the highest id among the messages that have
  a recipient containing `$address`.
- `seeEmailCount()` counts the list.
- `_initialize()` builds the base URI of the service from `url` and `port`.

Two modules, one per file:

- `PhpStrings` (`php_strings.dfy`) writes out the PHP string behaviour the module
  relies on. It holds the byte order that `>` uses on non-numeric strings, the
  decimal text of an integer in a concatenation, `strpos`, and `trim($s, '/')`.
  It also proves the facts about them that the selection needs. The byte order
  is a strict total order. A common prefix does not change an order. The decimal
  text of an integer reads back as that integer.
- `MailCatcher` (`mail_catcher.dfy`) holds the messages, the comparator, the
  in-place sort, the two selections, the count and the base URI.

The service's list endpoint is an input `seq<Message>`, holding the records after
JSON decoding. Fetching a message by id (`emailFromId`) is modelled by returning
the selected id in `Selected(id)`. Each `fail(...)` is a `Failed(reason)` result
and ends the operation; `Failure.Text()` gives the source's message text.

The comment above the sort (src/Module/MailCatcher.php:290) says messages are
shown in the order they were received. The key, however, is the text
`created_at . id`, and the comparison is by characters. At equal timestamps the
ids are therefore compared as text, not as numbers. So id 9 is placed ahead of
id 10, which goes against arrival order (`IdTieBreakIsTextual`). The comparator
also answers 1 in both argument orders when two keys are equal
(`CompareOnEqualKeys`). The model therefore promises only what holds for every
order `usort` may leave: the result is a permutation, and its keys never
increase.

## Model

| member | source | states |
|---|---|---|
| PhpStrings.LexLessIrreflexive | src/Module/MailCatcher.php:360 | no string is greater than itself under PHP's byte-wise `>` |
| PhpStrings.LexLessAsymmetric | src/Module/MailCatcher.php:360 | if key A > key B then not key B > key A |
| PhpStrings.LexLessTransitive | src/Module/MailCatcher.php:360 | the byte-wise order on keys is transitive |
| PhpStrings.LexLessTotal | src/Module/MailCatcher.php:360 | two different keys are always ordered one way or the other |
| PhpStrings.LexLessCommonPrefix | src/Module/MailCatcher.php:358-360 | keys sharing a `created_at` prefix compare as their id texts compare |
| PhpStrings.LexLessEqualLengthPrefix | src/Module/MailCatcher.php:358-360 | when the `created_at` texts have equal length and differ, they alone decide the order of the keys |
| PhpStrings.DecimalString | src/Module/MailCatcher.php:358-359 | the text an integer gets in a concatenation: a '-' exactly for negative numbers, then digits without a leading zero (read back by DecimalStringRoundTrip) |
| PhpStrings.DecimalStringRoundTrip | src/Module/MailCatcher.php:358-359 | the decimal text an id gets in the key reads back as that id |
| PhpStrings.DecimalStringInjective | src/Module/MailCatcher.php:358-359 | different ids give different texts in the key |
| PhpStrings.Strpos | src/Module/MailCatcher.php:191 | `strpos` gives the first position where the address occurs in the recipient; it gives `false` (None) exactly when it occurs nowhere |
| PhpStrings.TrimSlashes | src/Module/MailCatcher.php:27 | `trim(url, '/')` is never longer than the url, and is empty exactly when the url is made of slashes only (its full shape is TrimSlashesShape) |
| PhpStrings.TrimSlashesShape | src/Module/MailCatcher.php:27 | `trim(url, '/')` is the url minus a run of leading and a run of trailing slashes; the result neither starts nor ends with a slash |
| MailCatcher.BaseUri | src/Module/MailCatcher.php:27 | the base URI ends with `:` and a port part that reads back as the port, and its host part neither starts nor ends with a slash (BaseUriShape ties the host part to the url) |
| MailCatcher.BaseUriShape | src/Module/MailCatcher.php:27 | the base URI is the url without leading or trailing slashes, then `:`, then the port's decimal text |
| MailCatcher.MailCatcherModule.Initialize | src/Module/MailCatcher.php:25-28 | `_initialize` sets the client field to a client whose base URI is built from the configured url and port |
| MailCatcher.Failure.Text | src/Module/MailCatcher.php:169 | the failure texts start with "No messages "; the text for an address is "No messages sent to " followed by that address, which can be read back from it |
| MailCatcher.FailureTextInjective | src/Module/MailCatcher.php:200 | different failures (including different addresses) are reported with different texts |
| MailCatcher.SortKey | src/Module/MailCatcher.php:358-359 | the sort key starts with `created_at`, and the rest reads back as the id |
| MailCatcher.EqualKeysSameMessageTime | src/Module/MailCatcher.php:358-359 | with timestamp texts of equal length, equal keys mean equal timestamps and equal ids |
| MailCatcher.Compare | src/Module/MailCatcher.php:357-361 | the comparator answers -1 exactly when key A > key B, answers 1 otherwise (ties included), and never answers 0 |
| MailCatcher.CompareAntisymmetric | src/Module/MailCatcher.php:357-361 | on different keys, swapping the arguments flips the comparator's answer |
| MailCatcher.CompareOnEqualKeys | src/Module/MailCatcher.php:360 | on equal keys the comparator answers 1 in both argument orders |
| MailCatcher.CompareTransitive | src/Module/MailCatcher.php:357-361 | if a goes before b and b before c, then a goes before c |
| MailCatcher.LaterTimestampSortsFirst | src/Module/MailCatcher.php:358-360 | with timestamp texts of equal length, the message with the later timestamp goes first, whatever the ids |
| MailCatcher.IdTieBreakIsTextual | src/Module/MailCatcher.php:358-360 | with equal timestamps, id 9 goes ahead of id 10 (ids are compared as text) |
| MailCatcher.SortNewestFirst | src/Module/MailCatcher.php:292 | the in-place sort leaves a permutation of the array in which each key is no greater than the previous one |
| MailCatcher.Messages | src/Module/MailCatcher.php:286-294 | `messages()` returns the fetched messages, each as often as fetched, ordered newest first |
| MailCatcher.NewestFirstHeadIsNewest | src/Module/MailCatcher.php:172-174 | the head of a list ordered newest first has a key no smaller than any message's key in the list |
| MailCatcher.NewestIsUniqueByKey | src/Module/MailCatcher.php:172-174 | two newest messages of a list have the same key, so the key of the selected message is fixed by the list |
| MailCatcher.LastMessage | src/Module/MailCatcher.php:165-175 | fails with "No messages received" exactly on an empty list; otherwise selects the id of a message of the list that has a maximal key |
| MailCatcher.RecipientHitsMembers | src/Module/MailCatcher.php:190-194 | the inner loop adds only the message's own id, and adds something exactly when some recipient contains the address |
| MailCatcher.MatchedIds | src/Module/MailCatcher.php:183-195 | the `$ids` array: every collected id belongs to a message of the list sent to the address (MatchedIdsMember gives the converse) |
| MailCatcher.MatchedIdsMember | src/Module/MailCatcher.php:189-195 | an id is collected exactly when some message with that id has a recipient containing the address |
| MailCatcher.CollectIds | src/Module/MailCatcher.php:183-195 | the nested loops build exactly the collected-ids sequence: message by message, the id once per matching recipient |
| MailCatcher.MaxOf | src/Module/MailCatcher.php:198 | `max($ids)` is a member of `$ids` and no element exceeds it |
| MailCatcher.MatchedIdsSelectHighest | src/Module/MailCatcher.php:189-198 | collecting from any reordering of the list finds nothing exactly when no message was sent to the address; otherwise the maximum is the highest id sent to the address |
| MailCatcher.LastMessageFrom | src/Module/MailCatcher.php:181-201 | fails with "No messages received" on an empty list, before any filtering; fails with "No messages sent to {address}" when no recipient contains the address; otherwise selects the highest id among matching messages, defined over list membership alone (not order, not `created_at`) |
| MailCatcher.HighestIdSentToIsUnique | src/Module/MailCatcher.php:197-198 | the highest id sent to an address is unique, so `lastMessageFrom`'s choice is fully determined |
| MailCatcher.SeeEmailCount | src/Module/MailCatcher.php:269-274 | the count assertion passes exactly when the expected number equals the number of fetched messages |

## Left out

- HTTP traffic through Guzzle: the GET of `/messages` and `/messages/{id}.json`, and the DELETE in `resetEmails`. The list is an input, and fetching by id is the returned id.
- The `setDefaultOption` loop over `guzzleRequestOptions` in `_initialize`: it only forwards options to the HTTP library.
- `json_decode` of response bodies: the model starts from the decoded records.
- `emailFromId`'s `quoted_printable_decode` and `Email::createFromMailcatcherData`: a PHP builtin and a class that are not part of this model.
- `grabMatchesFromEmail` and the `grab*FromLastEmail*` helpers: they run `preg_match`, a foreign regex engine.
- The `seeIn*` and `dontSeeIn*` assertion wrappers: they only delegate to the test framework's `assertContains` and `assertNotContains`.
- tests/_support/Helper/Acceptance.php: it only sends a message over SMTP.
- PHP compares two numeric strings as numbers. The keys start with an ISO-8601 timestamp, so they are never numeric, and the model always compares bytes. Keys that are numeric strings would compare as numbers in PHP (digits, but also a sign, a decimal point, an exponent or leading whitespace, as in "1e3" or " 12"); the model does not cover that case.
- Characters stand for bytes. For UTF-8 text, comparing code points gives the same order as comparing bytes.
- `strpos` follows PHP 8: an empty address occurs in every recipient. PHP 7 would warn and return `false`.
- `seeEmailCount`'s `assertEquals` is taken as integer equality; PHPUnit's loose comparison of, say, the string "2" is not modelled.
- Ids and ports are unbounded integers; PHP's 64-bit integer limit never matters here.
- MailCatcher.SortNewestFirst: insertion sort stands in for PHP's `usort`. Only the permutation and the non-increasing keys are promised. Where keys are equal, the order `usort` leaves is not modelled.
- MailCatcher.LastMessage: states that the selected message has a maximal key. Where several messages share that key, which one `usort` puts first is not modelled. With timestamp texts of equal length, as ISO-8601 texts are, EqualKeysSameMessageTime shows that such messages share their id, so the selected id is then fixed.
