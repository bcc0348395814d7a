# A verified model of the safe-gmail broker

safe-gmail is a broker that stands between a client and one Gmail account. The
client may search, read and draft, but only over the messages that a policy makes
visible. This project models the broker's logic in Dafny and proves what it keeps
over every request, every run of requests and every Gmail mailbox.

- **Searches** (`Search`, `SearchSafety`, `SearchReference`, `SearchComplete`,
  `SearchResume`, `SearchTermination`, `Paging`, `SelfLoop`, `Cycles`, `SearchRuns`). One
  loop serves message search and thread search: read a page of Gmail's results, drop what the policy hides
  and what was returned before, stop at a limit, and pack the rest of the state into a
  page token. Gmail is an oracle whose answers may depend in any way on how many calls
  were made before, so an answer history covers a mailbox that changes while it is
  searched. Any call may fail, and the 30 second request context is a number of calls
  after which every call fails. The loop is modelled both as a method with the source's loop and as the
  function `Scan` that the method is proved equal to; all results are about `Scan`,
  and about `Respond`, which adds the page token on both sides.
- **The page token** (`Cursor`, `TokenSize`, `Json`, `Base64`, `Utf8`) down to its
  characters, and how many of them there are.
- **Messages** (`Headers`, `Attachments`, `AttachmentSize`, `Body`): ids as addresses in
  the MIME tree, the size of the response that delivers an attachment, the body text.
- **Drafts and replies** (`Draft`, `DraftMessage`, `Replies`): the raw message, read
  back by a parser; the References chain; reply recipients.
- **Text and bytes** (`Utf8`, `Rfc3339`, `Newest`, `Framing`, `Query`).
- **Requests** (`Policy`, `Handlers`, `Authorisation`, `Answers`, `Responses`): every
  request handler as a response together with the calls it made; what the policy
  guarantees over all of them; and what each answers, field by field, from Gmail's
  answers alone.

Six facts about the code came out of the proofs:

- A search request below its limit does not stop at the end of Gmail's results. No
  pending ids and no page token is the loop's first state, so it starts over from the
  first page. It can end only when the limit can be met or every id on the last page
  is visible, and does end then if no call fails; otherwise it runs into its deadline,
  whatever that is (`NextRequestTerminates`, `OneHiddenIdNeverEnds`).
- A page that names itself as its successor is dropped unread. Over a chain that ends
  in such a page every request can be answered if no call fails, and a finished run
  returns exactly the first occurrences over the pages before it. So it is complete if and only if every
  visible id on that page is also on an earlier page (`SelfLoopRun`, `SelfLoopEnds`;
  `SelfLoopDropsPage` is the smallest instance). Over acyclic paging it is complete
  (`WholeRunRefines`).
- A last page that names an earlier page passes the repeated-token guard. Over such
  paging a search is never over, and a request can be answered only if its limit is
  within reach of the visible ids not yet returned, and then is if no call fails
  (`CycleRun`, `CycleNext`).
- Every page token carries all ids returned so far, while the broker reads request
  frames of at most 1 MiB. Whatever else a request holds, it fits its frame only while
  fewer than 196608 ids have been returned (`AskingIsBounded`), so a longer search
  cannot be finished (`LongSearchNeverFinishes`).
- Responses do not depend on the content of what the policy hides: the metadata, the
  bodies and the attachments of hidden messages (`ResponsesShowOnlyVisible`). That a
  hidden message or thread exists does show: it is denied where a missing one is not
  found (`HiddenMessageExists`, `HiddenThreadExists`). So do Gmail's listings, hidden
  ids among them: ids that a search has not yet checked travel in the page token
  (`UncheckedIdsShow`), and a listed hidden id can keep a request from ending
  (`OneHiddenIdNeverEnds`).
- Thread summaries pick the newest message by comparing printed time stamps. That is
  the order of time until the end of year 9999 and not one second longer
  (`StampOrderExactly`), and only on messages with an internal date does it agree with
  the choice by date (`AgreementEnds`, `AgreementStarts`).

## Model

| member | source | states |
|---|---|---|
| `Paging.WholeRunRefines` | internal/broker/server.go:360-432 | Over a mailbox whose result list and visibility do not change, with any limits, page sizes and empty pages, and whichever calls fail, the responses of a run concatenate to a prefix of the first occurrences of the visible trimmed non-blank ids in list order; every answer that has a successor is full, a request fails only at its deadline or with the error of its last call, and a last answer without a successor means the run returned exactly all of them |
| `Paging.RunIsSafe` | internal/broker/server.go:368-431 | Against any Gmail (repeated, cyclic, overlapping pages, changing mailbox, failing calls), failed requests that are tried again included, no id is returned twice over a whole run, each item is what the visibility check of its id answered, each id came from a fetched page, no response exceeds its limit, every token carries the ids of all responses so far, and a request fails only at its deadline or with the error of its last call |
| `Paging.NextRequestTerminates` | internal/broker/server.go:374-418 | After any responses of a run over a finite chain of pages, whichever calls fail, the next request can be answered only if its limit is within reach of the visible ids not yet returned or every id on the last page is visible, and an answer takes at most twice as many list calls as there are pages; if no call for a page or a listed id fails, some deadline then does let it answer, and it fails only with the deadline error |
| `Paging.SplitAndResumeRequests` | internal/broker/server.go:360-432 | At any point of a run, at equal batch size, a request with limit a and its continuation with limit b answer together the same ids, items and next token as one request with limit a + b |
| `Paging.RunLength` | internal/broker/server.go:374-432 | Over such a mailbox, whichever calls fail, a run has at most one answer more than there are visible ids |
| `Paging.AnswerKeepsReady` | internal/broker/server.go:362-431 | Every answer extends the returned ids and the call history, and its non-empty token decodes to exactly the loop state that produced it, without what was collected |
| `Paging.FailureKeepsReady` | internal/broker/server.go:374-397 | A failed request leaves its page token as good as it was for another try |
| `Paging.UncheckedIdsShow` | internal/broker/server.go:420-426 | Two mailboxes that differ only in a listed hidden id answer the same ids with different page tokens |
| `Paging.SearchVisibleItems` | internal/broker/server.go:360-432 | The method from page token to next page token computes the function that all results are about |
| `SearchRuns.MessageRunRefines` | internal/broker/server.go:472-540 | Over brokers that each open Gmail anew and a mailbox that does not change, whichever calls fail or answers get lost, the responses of a run of message searches show, field by field and in order, the messages at the first occurrences of the listed ids that the policy permits: a prefix, and all of them once there is no next page. Where each message carries its own id the summaries have these very ids. Only full pages have a next one |
| `SearchRuns.DetailRunRefines` | internal/broker/server.go:472-540 | The same for searches with bodies or attachments, with the full messages |
| `SearchRuns.ThreadRunRefines` | internal/broker/server.go:230-331 | The same for runs of thread searches: summaries, field by field, of the threads with a permitted message, under their own ids, even while hidden messages come and go in them |
| `SearchRuns.MissingMessageHolds` | internal/broker/server.go:1138-1141 | What these results ask of Gmail holds just as well when one of the messages is not found |
| `SearchRuns.SearchFails` | internal/broker/server.go:374-397 | A search that is not refused for its token fails only at its deadline, or with the error of a call that failed |
| `SearchRuns.NoScopeShowsNothing` | internal/broker/server.go:872-877 | A policy without a label and without owner-sent mail permits no message |
| `Search.SearchVisible` | internal/broker/server.go:368-418 | The loop with its breaks and continues computes `Scan` for every Gmail, cursor, limit and deadline |
| `Search.MakeIDSet` | internal/broker/server.go:989-999 | The set of the trimmed non-blank ids |
| `Search.UniqueIDsExcluding` | internal/broker/server.go:1001-1022 | The loop computes `Unique`, which `UniqueIsClean` characterises |
| `Search.ExtractIDs` | internal/broker/server.go:978-987 | The loop keeps the non-blank ids of non-nil entries in order |
| `Search.NormalizeLimit` | internal/broker/server.go:937-952 | The limit is at least 1 and at most the configured maximum, and is the requested one when that is in range |
| `Search.BatchSize` | internal/broker/server.go:954-965 | The batch is positive, within the maximum, and never below a normalised limit |
| `SearchSafety.UniqueIsClean` | internal/broker/server.go:1001-1022 | The result lists every trimmed non-blank id that is not excluded, once, and nothing else |
| `SearchSafety.TurnKeeps` | internal/broker/server.go:374-417 | One turn of the loop keeps the invariant: pending ids are trimmed, non-blank, distinct and not returned yet, the returned set is the returned list, and the list grows by exactly what is collected |
| `SearchSafety.EveryTurnCalls` | internal/broker/server.go:398-405 | From any state whose pending ids are filtered the blank and already-returned guards are never taken: every turn that goes on makes a Gmail call |
| `SearchSafety.OneCallPerTurn` | internal/broker/server.go:371-405 | Whatever cursor a client sends, a request makes at most one turn of the loop for each Gmail call left, and a last one |
| `SearchSafety.StartOfTidy` | internal/broker/server.go:368-373 | Filtering the pending ids again when a token comes back is the identity on reachable states |
| `SearchSafety.ScanSafe` | internal/broker/server.go:374-418 | A whole request keeps the invariant, stays within its limit, and below its limit ends with nothing pending and no Gmail token |
| `SearchSafety.ScanGenuine` | internal/broker/server.go:374-418 | The call history of a request holds Gmail's answers call by call, also when the request fails |
| `SearchSafety.ScanPasses` | internal/broker/server.go:407-417 | Whatever token a client sends, everything a search collects was checked in this very request, for the id that is returned with it |
| `SearchReference.ExpectedIsFirstOccurrences` | internal/broker/server.go:374-418 | The reference list is distinct, holds exactly the visible listed ids, and orders them by first occurrence |
| `SearchReference.FirstOccurrencesUnique` | internal/broker/server.go:374-418 | Only one list is the list of first occurrences |
| `SearchReference.CollectUnique` | internal/broker/server.go:387-387 | Removing repeated and returned ids from a page before filtering it does not change what is collected |
| `SearchComplete.ScanTracks` | internal/broker/server.go:374-418 | The ids returned and pending at the end of a request are again what some prefix of the result list gives, also after a restart from the first page, whichever calls fail |
| `SearchResume.SplitAndResume` | internal/broker/server.go:368-418 | The loop with limit a + b is the loop with limit a continued from its cursor with limit b, for every Gmail |
| `SearchTermination.ExactTermination` | internal/broker/server.go:374-395 | Whichever calls fail, one request on a chain of n pages can end only if the limit can be met or the last page is clear, and takes at most 2n list calls to end; if no call fails, a stated number of calls makes it end |
| `SearchTermination.TurnStands` | internal/broker/server.go:374-417 | One turn on a chain: when it leaves, which page comes next, how the bound on the remaining calls falls, and that only the deadline makes it fail if no call does |
| `SearchTermination.ChainServes` | internal/broker/server.go:375-387 | A finite chain of pages with distinct tokens is a mailbox in the sense of the completeness results |
| `SearchTermination.OneHiddenIdNeverEnds` | internal/broker/server.go:374-395 | A concrete mailbox, one page with one hidden id, on which a request never ends whatever the deadline |
| `SelfLoop.SelfLoopRun` | internal/broker/server.go:382-386 | Over a chain whose last page names itself, whichever calls fail, every answer with a successor is full, and a run returns a prefix of the first occurrences over the pages before that one, a finished run all of them; a finished run is complete if and only if every visible id on the last page is also on an earlier page |
| `SelfLoop.SelfLoopEnds` | internal/broker/server.go:382-386 | If no call for a page or for an id on an earlier page fails, every request of such a run is answered under some deadline |
| `SelfLoop.ScanMuted` | internal/broker/server.go:374-418 | A request over such a mailbox gives, after as many Gmail calls, what it gives when the last page is empty and names no successor |
| `SelfLoop.SelfLoopDropsPage` | internal/broker/server.go:382-386 | The smallest instance: a visible id on a page that names itself is not returned |
| `Cycles.CycleRun` | internal/broker/server.go:382-395 | Over paging whose last page names an earlier page, whichever calls fail, a run is never over: every answer is full and has a successor, and together they are a prefix of the first occurrences of the visible ids |
| `Cycles.CycleNext` | internal/broker/server.go:374-418 | Over such paging the next request can be answered only if its limit is within reach of the visible ids not yet returned, and under some deadline it then is if no call fails |
| `Cycles.CycleTermination` | internal/broker/server.go:374-418 | The same for the loop from any state on the cycle |
| `Cursor.TokenRoundTrip` | internal/broker/server.go:1091-1136 | Decoding an encoded cursor gives it back; another kind of search or another query is always rejected, with the matching message |
| `Cursor.RecordDecodes` | internal/broker/server.go:1106-1124 | What a record that a client prints itself is answered: refused for another version, kind or query, in this order, and accepted as it is otherwise |
| `Cursor.OtherTokens` | internal/broker/server.go:1098-1110 | A blank token starts the search, one without the prefix is Gmail's own page token, one that is not base64url is refused |
| `Cursor.EmptyTokenMeansFinished` | internal/broker/server.go:1126-1129 | The empty token stands for exactly the cursors with nothing pending and a blank Gmail token |
| `Cursor.TokenInjective` | internal/broker/server.go:1091-1136 | Two unfinished states of one search share a token only if they are the same state |
| `Cursor.TokenTrimmed` | internal/broker/server.go:1098-1104 | Every token is non-empty, has the prefix, and survives trimming |
| `Cursor.FieldsBuildCursor` | internal/broker/server.go:1091-1113 | Unmarshalling a marshalled cursor into a prefilled one overwrites exactly the right fields, omitted empty ones included |
| `TokenSize.TokenLength` | internal/broker/server.go:1126-1136 | The length of a page token, exactly, from the lengths of its printed parts |
| `TokenSize.FrameDecides` | internal/broker/server.go:155-159 | The broker reads a request from its frame if it has at most 1 MiB, and refuses it as too large otherwise |
| `TokenSize.NextRequestFits` | internal/broker/server.go:420-431 | The token of a run holds all ids returned, and when the next request with it fits its frame, exactly |
| `TokenSize.AskingIsBounded` | internal/broker/server.go:420-431 | If the next request of a run fits its frame, whatever else it holds, fewer than 196608 ids have been returned |
| `TokenSize.LongSearchNeverFinishes` | internal/broker/server.go:420-431 | Over an unchanging mailbox with that many visible ids and one page more, whichever calls fail, no run of requests that fit their frames is ever over |
| `TokenSize.RequestReads` | internal/rpc/envelope.go:146-152 | The marshalled search request is an envelope around a record that reads back as its query, limit and page token, with a zero limit and an empty token left out |
| `Json.ObjectBack` | internal/broker/server.go:1107-1113 | Reading a printed record of strings, string lists and numbers gives back its fields in order, through all of Go's escapes |
| `Json.EscapesAre` | internal/broker/server.go:1131-1131 | The escapes of a printed character, by code point, HTML characters and line separators included |
| `Base64.DataRecoversBothEncodings` | internal/gmailapi/message.go:129-142 | Every byte string is recovered from its unpadded and its padded base64url form |
| `Base64.DataRoundTrip` | internal/gmailapi/message.go:129-142 | The same when the text is surrounded by space or wrapped into lines |
| `Base64.UnpaddedRefusesPadding` | internal/gmailapi/message.go:134-137 | The unpadded decoder fails on padded text, so the fallback is reached exactly when it is needed |
| `Base64.EncodedText` | internal/broker/server.go:1135-1135 | Encoded text has only alphabet characters and padding, no line breaks, and the stated length |
| `Base64.SymbolCode` | internal/broker/server.go:1135-1135 | The symbols by code point, in the order of table 2 of RFC 4648 |
| `Base64.GroupNumber` | internal/broker/server.go:1135-1135 | Four symbols are the same 24-bit number as their three bytes (section 4 of RFC 4648) |
| `Utf8.TruncateUTF8` | internal/gmailapi/message.go:163-180 | The loop computes `Truncated` for every value and cap |
| `Utf8.TruncatedMeans` | internal/gmailapi/message.go:163-180 | Text within the cap is unchanged; otherwise the result is the longest valid UTF-8 prefix within the cap |
| `Utf8.TruncationOfValid` | internal/gmailapi/message.go:163-180 | Valid text is cut between two characters and loses at most three bytes below the cap |
| `Utf8.EncodeOfDecode` | internal/gmailapi/message.go:176-176 | The bytes called valid are exactly encodings of strings (section 4 of RFC 3629) |
| `Utf8.DecodeOfEncode` | internal/gmailapi/message.go:176-176 | Every string encodes to valid bytes that decode to it |
| `Attachments.CollectAttachmentRefs` | internal/gmailapi/attachment.go:75-89 | The recursive walk with its loop computes the list of references |
| `Attachments.FindAttachment` | internal/gmailapi/attachment.go:47-60 | The lookup loop computes `Find` |
| `Attachments.ListedIDsDistinct` | internal/gmailapi/attachment.go:75-111 | All ids listed for a MIME tree are pairwise distinct |
| `Attachments.FindListed` | internal/gmailapi/attachment.go:47-60 | Looking up a listed id gives exactly the reference that was listed |
| `Attachments.FindIsNavigation` | internal/gmailapi/attachment.go:47-111 | The id of an address finds the part at that address if and only if it is an attachment of the kind the prefix says |
| `Attachments.FoundIsAddress` | internal/gmailapi/attachment.go:47-111 | Every id that is found is, trimmed, the address of an attachment part |
| `Attachments.PartFound` | internal/gmailapi/attachment.go:47-143 | In any tree, looking up the address of a part under either kind of id finds something if and only if Gmail keeps the part apart, or it has data and a file name, the disposition of an attachment or, unless it is text, an inline disposition or a Content-ID |
| `Attachments.ListedInOrder` | internal/gmailapi/attachment.go:75-89 | The references are listed in document order |
| `Attachments.IDInjective` | internal/gmailapi/attachment.go:153-173 | Prefix and path are determined by the id: dotted decimal paths, `root` and the two prefixes never collide |
| `Attachments.ListedKind` | internal/gmailapi/attachment.go:24-33 | Exactly one of inline data and a Gmail token is present, as the prefix of the id says |
| `Attachments.MetadataStable` | internal/gmailapi/attachment.go:91-111 | Trees that differ only in the values of non-blank Gmail tokens list identical metadata |
| `AttachmentSize.MaxAttachmentBytes` | internal/broker/server.go:1155-1164 | The cap lies in 1..24117248, is the configured one when that is in range, and 24117248 otherwise |
| `AttachmentSize.ResponseLength` | internal/broker/server.go:1166-1182 | Base64 content needs no JSON escaping; the marshalled response is as long as its other parts and four bytes for every three bytes begun |
| `AttachmentSize.FrameCheck` | internal/broker/server.go:1166-1182 | Within the cap, the frame check on the marshalled response fails exactly when the rest of it is too long, which takes more than 1398100 bytes; the bound is attained |
| `AttachmentSize.ResponseReads` | internal/broker/server.go:1166-1182 | The measured response is an envelope around a record that reads back as the attachment's metadata and content |
| `AttachmentSize.ContentBack` | internal/broker/server.go:1166-1182 | The content of a response decodes as padded base64 of the standard alphabet to the attachment's bytes |
| `Body.FindPartBody` | internal/gmailapi/message.go:109-124 | The recursive search with its loop and early returns computes `FindBody` |
| `Body.FindBodyIsFirst` | internal/gmailapi/message.go:109-124 | The body is the first non-empty text in document order, where nothing below a part that decodes is read |
| `Body.FoundBodyIsPart` | internal/gmailapi/message.go:109-124 | A body that is found is the decoded data of a part of the type in the tree |
| `Body.OwnTextExactly` | internal/gmailapi/message.go:113-117 | What counts as the text of a part: the type in any letter case, and data that decodes |
| `Body.PlainBeforeHTML` | internal/gmailapi/message.go:99-107 | The body is the first non-empty plain text in document order or, without one, the first HTML text |
| `Body.EncodedBodyShown` | internal/gmailapi/message.go:109-142 | A text part that encodes some bytes, padded or not, has them as its body |
| `Headers.FirstHeader` | internal/gmailapi/message.go:87-97 | The first header with the name in any letter case counts, and without one the value is empty |
| `Draft.NormalizeBodyMeans` | internal/gmailapi/draft.go:267-271 | The body keeps its lines, joined by CRLF; CR and LF occur only as pairs; normalising again changes nothing (section 2.1 of RFC 5322) |
| `Draft.SanitizeIsLine` | internal/gmailapi/draft.go:261-265 | A sanitised header value is one trimmed line |
| `Draft.SanitizeKeepsWords` | internal/gmailapi/draft.go:261-265 | A sanitised value is its words joined by single spaces, has the same words, and stays as it is when sanitised again |
| `Draft.SanitizeJoin` | internal/gmailapi/draft.go:273-285 | A space-joined list of words is already sanitised and splits into the words again |
| `Draft.SubjectPrinted` | internal/gmailapi/draft.go:253-265 | A subject is printed as its words by single spaces if that is ASCII, and otherwise as the encoded form of that |
| `DraftMessage.NormalizeAddressList` | internal/gmailapi/draft.go:55-77 | The nested loops compute the lower-cased addresses, each once, over all inputs, or fail with the first list that does not parse |
| `DraftMessage.NormalizedIsParsed` | internal/gmailapi/draft.go:55-77 | Normalising succeeds exactly when every non-blank value parses, and keeps the new addresses of all of them in order |
| `DraftMessage.KeepNewOneMore` | internal/gmailapi/draft.go:66-73 | One address more is kept, trimmed and lower-cased, unless it is empty or known |
| `DraftMessage.NormalizedMeans` | internal/gmailapi/draft.go:55-77 | A normalised list holds trimmed lower-case addresses, each once |
| `DraftMessage.NormalizedAgain` | internal/gmailapi/draft.go:55-77 | Normalising such a list again, as building the draft does, changes nothing when the mail library reads each address back as itself |
| `DraftMessage.Buffer.WriteHeader` | internal/gmailapi/draft.go:242-251 | Appends the header line, or nothing for a blank value |
| `DraftMessage.BuildDraftRaw` | internal/gmailapi/draft.go:158-195 | The stepwise writer produces the base64url text of the draft, or an error for an address list that does not parse or a sender that is not one address |
| `DraftMessage.DraftRoundTrip` | internal/gmailapi/draft.go:159-195 | A raw draft exists exactly when the account is one address and the recipient lists parse; decoding it and splitting it at the first empty line gives back the non-empty headers in order and the normalised body |
| `Replies.SentHeaders` | internal/gmailapi/draft.go:180-190 | Which value a reader of the draft finds under each header name |
| `Replies.ReplyStep` | internal/gmailapi/draft.go:80-100 | A reply's references are those of the answered message and the reply's own id, through join, sanitise, print, read and split |
| `Replies.ReplyChain` | internal/gmailapi/draft.go:80-100 | Along any chain of replies the references are those of the first message and then every reply's id, in order; if the first message's do not repeat, none do (section 3.6.4 of RFC 5322) |
| `Replies.ChainStart` | internal/gmailapi/draft.go:85-92 | A message whose id is one word starts such a chain, and its id is among the references; without References and In-Reply-To it is the only one |
| `Replies.ContextMeans` | internal/gmailapi/draft.go:80-100 | A reply's references are the words of References or, when there are none, of In-Reply-To, and behind them the message's own id unless it is among them |
| `Replies.ContextPrinted` | internal/gmailapi/draft.go:80-100 | The threading headers that a reply takes from a message, even from an id with spaces, are printed unchanged |
| `Replies.DraftReplyRecipients` | internal/gmailapi/draft.go:116-155 | The closure and its three calls compute `Recipients` |
| `Replies.ReplyAllConserves` | internal/gmailapi/draft.go:144-154 | To and Cc of a reply-all hold each non-empty non-owner address of the reply address, To and Cc headers exactly once, in order; they are disjoint and the owner never appears |
| `Replies.ReplyToOne` | internal/gmailapi/draft.go:144-154 | Without reply-all there is no Cc, and To is the reply address or, when that is empty or the owner's, the other addresses of the To header |
| `Replies.ReplyToCounts` | internal/gmailapi/draft.go:138-152 | The first usable address of the Reply-To header is the first recipient, to all or not, unless it is the owner's |
| `Replies.FromCounts` | internal/gmailapi/draft.go:138-152 | Without a usable Reply-To header the sender is the first recipient, unless it is the owner's |
| `Replies.KeepOthersMeans` | internal/gmailapi/draft.go:123-132 | What the closure keeps: every new non-empty address but the owner's, once |
| `Replies.RecipientsBare` | internal/gmailapi/draft.go:116-155 | To and Cc of a reply hold trimmed lower-case addresses, each once |
| `Rfc3339.StampOrder` | internal/gmailapi/message.go:149-151 | Until the end of year 9999 the string order of stamps is the order of time, calendar conversion included (section 5.1 of RFC 3339) |
| `Rfc3339.StampOrderExactly` | internal/gmailapi/thread.go:53-53 | The string order of stamps is the order of time on all seconds before a bound if and only if the bound is not beyond the end of year 9999 |
| `Rfc3339.StampOrderEndsThere` | internal/gmailapi/thread.go:53-53 | The first stamp of year 10000 sorts before the last of year 9999 |
| `Rfc3339.FieldsBack` | internal/gmailapi/message.go:149-151 | The fields of a stamp name the second they were computed from |
| `Rfc3339.StampReads` | internal/gmailapi/message.go:149-151 | Until the end of year 9999 a stamp has the form of section 5.6 of RFC 3339 in UTC and reads as the fields of its second |
| `Newest.NewestByStamp` | internal/gmailapi/thread.go:45-59 | The loop computes `ByStamp` |
| `Newest.ByStampIsFirst` | internal/gmailapi/thread.go:45-59 | The choice is the first message whose stamp no other exceeds |
| `Newest.NewestByDate` | internal/gmailapi/draft.go:307-321 | The loop computes `ByDate` |
| `Newest.ByDateIsFirst` | internal/gmailapi/draft.go:307-321 | The choice is the first message with the greatest internal date |
| `Newest.NewestAgree` | internal/gmailapi/thread.go:45-59 | For internal dates from 1 ms to the end of year 9999, choosing by stamp gives the first message of the latest second, and the choice by date lies in the same second |
| `Newest.AgreementEnds` | internal/gmailapi/thread.go:45-59 | On all messages dated from 1 ms to a bound the two choices lie in the same second if and only if the bound is not beyond the end of year 9999 |
| `Newest.AgreementStarts` | internal/gmailapi/thread.go:45-59 | With any Date headers, on all messages dated from a bound to the end of year 9999 they do if and only if the bound is at least 1 ms |
| `Framing.Pipe.WriteFrame` | internal/rpc/framing.go:32-49 | Appends header and payload, or nothing when the payload is empty or too long; on a connection that breaks, the bytes that still get through and an error |
| `Framing.Pipe.ReadFrame` | internal/rpc/framing.go:10-29 | What is read and how much of the stream is consumed, in every error case |
| `Framing.FrameBack` | internal/rpc/framing.go:10-49 | A written frame reads back as its payload and leaves what follows untouched |
| `Framing.SentReadsBack` | internal/rpc/framing.go:10-49 | What a reader makes of one write: the payload if all of the frame got through, an error otherwise, never another payload |
| `Framing.PrefixIsError` | internal/rpc/framing.go:10-29 | Every strict prefix of a frame is an error |
| `Framing.FramesBack` | internal/rpc/framing.go:10-49 | A stream of frames reads back as the same payloads with the remainder untouched |
| `Query.TwoPassesAreOne` | internal/broker/server.go:1072-1073 | Escaping backslashes and then quotes is the same as one pass over both |
| `Query.ClauseBack` | internal/broker/server.go:1064-1089 | A quoted-string reader recovers the trimmed label from the clause |
| `Query.ClauseInjective` | internal/broker/server.go:1064-1089 | Different trimmed labels have different clauses |
| `Query.UnquotedExactly` | internal/broker/server.go:1064-1089 | A label is printed without quotes exactly when all its characters are letters, digits or one of `-`, `.`, `_`, `/` |
| `Policy.Policy.AllowsMessage` | internal/policy/policy.go:98-146 | The loops over labels decide the visibility rule |
| `Policy.AllowsExactly` | internal/policy/policy.go:98-146 | A message is visible if and only if it carries the label with the id of the policy, or owner-sent mail is allowed and it is from the owner or labelled SENT in any letter case |
| `Policy.Policy.ResolveVisibilityLabel` | internal/policy/policy.go:82-95 | The field ends with the label's id, or unchanged when there is nothing to resolve or the label is unknown |
| `Policy.ResolvingWidens` | internal/policy/policy.go:82-109 | Resolving the label hides no message that was visible, is settled once done, and changes nothing on failure; without a label and owner-sent mail nothing is visible |
| `Policy.ResolvedByName` | internal/policy/policy.go:82-95 | A label resolves exactly when Gmail has its trimmed lower-case name with a non-blank id; then the messages with this id are visible and, without owner-sent mail, no others |
| `Handlers.VisibleThreadMessages` | internal/broker/server.go:758-770 | The loop keeps the allowed messages in order |
| `Handlers.FetchAll` | internal/broker/server.go:509-521 | The loop over visible messages fetches each in full and stops at the first failure |
| `Handlers.AppendNew` | internal/gmailapi/thread.go:61-88 | The closure over a list of addresses adds each trimmed non-empty one that is new, once |
| `Handlers.CollectParticipants` | internal/gmailapi/thread.go:61-88 | The loop over messages collects every trimmed non-empty address, each once |
| `Authorisation.AuthoriseBeforeFetch` | internal/broker/server.go:434-870 | In every request each full-message fetch, attachment download and reply draft follows, in the same request, a metadata answer that the policy allows for it |
| `Authorisation.ResponsesShowOnlyVisible` | internal/broker/server.go:230-870 | Non-interference: over two mailboxes with the same listings, messages and threads that differ in any way in the metadata, bodies and attachments of hidden messages and in which hidden messages threads hold, every request gets the same response |
| `Authorisation.HiddenMessageExists` | internal/broker/server.go:451-457 | A request for a hidden message or its attachment is denied; over the same Gmail without the message it is not found |
| `Authorisation.HiddenThreadExists` | internal/broker/server.go:559-572 | So is a request for a thread with hidden messages only |
| `Answers.PermittedExactly` | internal/broker/server.go:751-756 | The policy decision over the labels and the From header of a message |
| `Answers.GetMessageAnswers` | internal/broker/server.go:434-470 | A get_message answers the full message if its metadata is permitted, field by field: ids, headers, date, the downloadable parts in document order and, exactly when asked for, the body cut to the longest valid prefix; otherwise the denial or the failing call's error |
| `Answers.GetThreadAnswers` | internal/broker/server.go:542-604 | A get_thread answers the permitted messages of the thread, each once and in order, as summaries or each fetched in full, under the thread's id; otherwise the denial or the first failing call's error |
| `Answers.SearchMessagesAnswers` | internal/broker/server.go:472-540 | A message search answers what its search gave: its error, or summaries of metadata that this request was answered for the ids and that is permitted, or those messages fetched in full, with the next page; without scope an empty page |
| `Answers.SearchThreadsAnswers` | internal/broker/server.go:230-331 | A thread search answers what its search gave: its error, or summaries of the threads that this request was answered for the ids, with the next page; without scope an empty page |
| `Answers.ThreadSummaryMeans` | internal/gmailapi/thread.go:14-88 | A thread is hidden exactly without a permitted message; its summary has its own id or, if that is blank, the thread id of the first permitted message, names exactly those whom the permitted messages' address headers mention, counts the messages, and has the subject, snippet and date of the first with the latest date |
| `Answers.GetAttachmentAnswers` | internal/broker/server.go:606-668 | A get_attachment answers the bytes and the metadata of the part with the id if the message is permitted, and the denial, a missing part, a declared, actual or marshalled size above the limits, undecodable data and failing calls each as their error |
| `Answers.OtherSearchRefuses` | internal/broker/server.go:1115-1122 | A page token that one search answers is an invalid parameter of the other kind of search, and of the same kind for another query, whatever Gmail answers then |
| `Responses.NewDraftMeans` | internal/broker/server.go:670-838 | A draft that answers nothing is made of the recipients, subject and body that the client gave, if the lists parse and name someone; read back from its raw form it is from the account, to the recipients as the mail library reads them, with this subject and body as plain UTF-8 text; the response is what Gmail answered |
| `Responses.ReplyDraftMeans` | internal/broker/server.go:670-870 | A reply draft answers the permitted message asked for, or the first newest permitted message of the thread; read back from its raw form it has that message's References and In-Reply-To and goes to the given recipients or those derived from its address headers, under the given subject or its own behind one prefix; it is filed under the message's thread; otherwise the denial, the missing recipients or the failing call are the answer |
| `Responses.ReplyGoesFirst` | internal/gmailapi/draft.go:138-152 | Without given recipients a reply, to all or not, goes first to the first usable address of Reply-To or, without one, to the sender, unless that is the owner |
| `Responses.ReplySubjectSettles` | internal/gmailapi/draft.go:102-114 | The reply prefix is added once, however long the chain of replies |

## Left out

- `Lower`: maps ASCII letters only; Go also folds other alphabets.
- `Trim`: strings are sequences of Unicode scalar values, so Go strings that are not valid UTF-8 occur only where the model has bytes (bodies, attachments, frames).
- `DecodeToken`: reads the compact JSON that the broker prints, with unknown keys and any order of keys; other JSON (white space, nested values, other number forms, keys in other letter case, surrogate escapes, bytes that are not UTF-8) is rejected, where Go may accept it.
- `Respond`: an error response carries its code, not its message, and a call fails at the deadline only when it is made, not while it runs.
- `DraftRoundTrip`: assumes that `net/mail` addresses and MIME encoded words contain no line breaks; both libraries are parameters. So do `NewDraftMeans` and `ReplyDraftMeans`.
- `NextRequestFits`: the request is marshalled as this repository's client does, apart from the white space and escapes that another client may add.
- `ThreadSummaryMeans`: participants are a set, so their sort order is not stated.
- `StampReads`: parsing the Date header of messages without an internal date is a parameter.
- `ReplyDraftMeans`: ids given as mail.google.com URLs are not rewritten; only their white space is trimmed.
- `ResponseLength`: response texts are valid UTF-8; Go replaces other bytes when it marshals.
- `WriteFrame`: a connection breaks after some number of bytes; that a broken one may recover is not modelled.
- `AllowsMessage`: address extraction and normalisation rest on `net/mail` and are parameters; nil messages inside a thread are not modelled.
- Loading the policy, creating the Gmail client and fetching the label list before a request: requests start with the resolved rules.
- The effective query beyond the label clause, and what Gmail's search matches.
- Listing labels, system information, request envelopes and parameter validation: they only rearrange fields.
- OAuth, keyring, sockets, peer credentials, the command line, service manifests and configuration files.
