# todos-app: a Dafny model of the assistant, the backend and the list logic

This project models the logic of a small todo application (Next.js front end,
Convex backend). It covers three parts:

- **The "ask AI" engine.** The keyword ranker (`buildTodoContext`) scores
  every todo against the words of a question, sorts by score and then by
  recency, keeps at most twelve, and falls back to the newest twelve.
- **The rule-based reply and the two entry points.**
  - `buildRuleBasedAnswer` builds either a three-item plan for "what next"
    questions or a lookup list.
  - `askAssistant` derives `matches` and the reply from the ranking.
  - The `/api/ask-ai` route checks the request in a fixed order, builds the
    chat-history snippet and the prompt, and maps the upstream outcome to a
    response.
- **The backend mutations and the UI helpers.**
  - The todo table: `list`, `get`, `create`, `update`, `toggleComplete` and
    `remove`.
  - The user table: sign-up, sign-in, the current user, and the
    password-reset token cycle, with hex encoding of digests and tokens.
  - Page-number windowing and page-bound checks.
  - Optimistic toggle and delete, the search filter and the
    pending/completed split.
  - The transliterating input filter of the assistant's message box.
  - The zod schemas of the auth forms and of the todo form, and the todo
    form's submission.

Everything is a pure function over immutable datatypes:

- A table is a sequence in insertion order.
- The clock (`now`), fresh document ids and random bytes are parameters.
- The upstream chat service is an abstract outcome value.

Modules, one per file:

| module | file | models |
|---|---|---|
| `Wrappers` | wrappers.dfy | `Option` and `Result` |
| `Text` | text.dfy | JavaScript string operations: `\s`, ASCII `toLowerCase`, `includes`, `split`, `join`, `trim`, number printing |
| `Sorting` | sorting.dfy | `filter`, `slice(0, n)`, and a stable insertion sort driven by a comparator returning a number, as `Array.prototype.sort` uses it |
| `TodoModel` | todo_model.dfy | the `Todo` record, JavaScript truthiness of its optional fields, pending/completed |
| `Ranker` | ranker.dfy | `buildTodoContext`; route.ts holds a copy of it, and both are modelled by this one module |
| `Assistant` | assistant.dfy | `buildRuleBasedAnswer` and the `askAssistant` handler |
| `AskRoute` | route.dfy | the `POST` handler of `app/api/ask-ai/route.ts` |
| `TodoStore` | todo_store.dfy | `convex/todos.ts` |
| `Auth` | auth.dfy | `convex/auth.ts` |
| `Pagination` | pagination.dfy | `components/shared/Pagination.tsx` |
| `PaginationContext` | pagination_context.dfy | `context/PaginationContext.tsx` |
| `TodoViews` | todo_views.dfy | `TodoList.tsx` and `List.tsx` |
| `Transliterate` | transliterate.dfy | `transliterateToEnglish` |
| `AuthSchemas` | auth_schemas.dfy | `features/auth/schemas/auth-schemas.ts` |
| `TodoForm` | todo_form.dfy | `features/homo/components/TodoForm.tsx` |

## Behaviour worth knowing

- **The recency fallback.** A pending todo always scores at least 1, so the
  twelve newest todos are used only when every todo is completed and none
  matches a keyword (`Ranker.FallbackIffNothingScores`).
- **Duplicates in the ranked list.** The ranked list keeps one entry per
  input entry, so a todo listed twice in the input is listed twice in the
  context; the ranked list is a sub-multiset of the input.
- **A failed upstream call.** When the chat-completion call answers with a
  non-OK status, the route replies with status 502 and an error body
  (`AskRoute.AnswerShapes`); only a successful call without content gets the
  fixed reply.

## Model

| member | source | states |
|---|---|---|
| Ranker.BuildTodoContext | convex/ai.ts:17-66 | with no todos the context is "User has no todos yet." and the list is empty; otherwise the list holds exactly min(k, 12) entries when k todos score positively and k > 0, and min(n, 12) of the n todos when none does, all taken from the input (as a sub-multiset), and the context text is never empty |
| Ranker.Keywords | convex/ai.ts:24-28 | a word is a keyword exactly when it is a lower-cased whitespace-separated word of the question longer than two characters; no keyword holds whitespace |
| Ranker.KeywordsConcat | convex/ai.ts:24-28 | the keywords of two questions joined by a space are those of the first followed by those of the second |
| Ranker.RepeatedQuestionCountsTwice | convex/ai.ts:24-36 | asking the same question twice over doubles every match count: keywords are not deduplicated |
| Ranker.MatchCountAppend | convex/ai.ts:34-36 | the keyword count is additive over the keyword list, so each keyword occurrence is counted separately |
| Ranker.RepeatedKeywordsCountTwice | convex/ai.ts:34-36 | a keyword list given twice counts twice: each occurrence of a keyword is counted separately |
| Ranker.MatchCountZero | convex/ai.ts:34-36 | no keyword scores exactly when no keyword occurs in the haystack |
| Ranker.RankedOrder | convex/ai.ts:41-48 | the ranked list has exactly min(k, 12) entries, where k is the number of todos with a positive score, each with a positive score, taken from the input, ordered by score descending and then createdAt descending |
| Ranker.RankedCount | convex/ai.ts:41-44 | the ranked list keeps min(k, 12) todos, k being how many todos score positively: sorting loses none of them |
| Ranker.EffectiveCount | convex/ai.ts:46-48 | the todos shown number min(k, 12) when k > 0 todos score positively, and min(n, 12) of all n todos otherwise |
| Ranker.RankingStable | convex/ai.ts:41-43 | the sort is stable: entries that compare equal keep their input order |
| Ranker.RankedKeepsBest | convex/ai.ts:45-48 | no positively scored todo left out of the twelve ranks ahead of one kept |
| Ranker.FallbackIffNothingScores | convex/ai.ts:37 | nothing is ranked exactly when every todo is completed and contains no keyword; a pending todo always scores |
| Ranker.EffectiveTodosWithin | convex/ai.ts:50-53 | for a non-empty input the effective list is never empty, has at most 12 entries, and comes from the input |
| Ranker.NewestFacts | convex/ai.ts:53 | the fallback holds min(n, 12) todos, newest first, and none left out is newer than one kept |
| Ranker.ContextLineSingle | convex/ai.ts:55-60 | a context line holds no line break when the title and description hold none |
| Ranker.ContextTextLines | convex/ai.ts:62-65 | splitting the context text at line breaks gives back exactly the context lines |
| Ranker.RankIdempotent | convex/ai.ts:17-66 | ranking the ranked list again with the same question returns it unchanged |
| Assistant.OnboardingWhenEmpty | convex/ai.ts:73-75 | with no todos the reply is the fixed onboarding text, whatever the question |
| Assistant.Top3Facts | convex/ai.ts:87-97 | the plan items are min(pending, 3) pending todos from the input, in priority rank order, and no pending todo left out outranks one kept |
| Assistant.PlanIff | convex/ai.ts:99-107 | the plan reply is given exactly when the lower-cased question contains a next-action phrase and some todo is pending |
| Assistant.PlanContents | convex/ai.ts:107-125 | a plan lists the top three pending todos, and its counts are the pending and completed counts of the todos it was given |
| Assistant.PlanLineReason | convex/ai.ts:108-116 | a plan line ends in exactly one reason: the high-priority one exactly for high priority, the due-date one exactly for other todos with a due date, the waiting one exactly for the rest |
| Assistant.PlanReplyLines | convex/ai.ts:118-124 | the plan reply's lines are the header, a blank line, the item lines, a blank line and the count line |
| Assistant.NotFoundUnreachable | convex/ai.ts:128-131 | the "couldn't find" reply is never chosen: the ranker returns a non-empty list for every non-empty input |
| Assistant.LookupContents | convex/ai.ts:127-146 | a lookup lists the first five ranked todos, is chosen only when the plan is not, and counts every todo it was given |
| Assistant.LookupReplyLines | convex/ai.ts:133-146 | the lookup reply's lines are the header, a blank line, the context-format item lines, a blank line and the count line |
| Assistant.ImportanceNotTransitive | convex/ai.ts:87-95 | the importance comparator has a cycle a < b < c < a among todos of one priority, some with a due date and some without |
| Assistant.ImportanceSortedWhenDueDatesUniform | convex/ai.ts:87-95 | when all pending todos have a due date, or none has, the sorted pending list is ordered by the full comparator |
| Assistant.AskAssistantNoTodos | convex/ai.ts:162-186 | without a user or without todos the answer is the onboarding reply with no matches |
| Assistant.MatchesAreRanked | convex/ai.ts:172-176 | the matches are the first five ranked todos whichever reply is given, and are non-empty whenever there are todos |
| Assistant.AskAssistantNeverNotFound | convex/ai.ts:180-184 | the handler's reply is never the "couldn't find" text |
| Assistant.RepliesCountRankedSubset | convex/ai.ts:180-184 | the reply is built from the ranked subset, so its pending and completed counts add up to at most 12 and miss todos when there are more than 12 |
| Assistant.LookupListsMatches | convex/ai.ts:173-176 | a lookup reply lists exactly the todos given as matches |
| AskRoute.MissingKeyFirst | app/api/ask-ai/route.ts:75-84 | a missing or empty API key gives status 500 before the body is read, and no call is made |
| AskRoute.InvalidQuestion | app/api/ask-ai/route.ts:89-94 | with the key set and a body parsed, status 400 is returned exactly when the question is missing, empty or not a string |
| AskRoute.SendsIff | app/api/ask-ai/route.ts:73-151 | the upstream call is made exactly when the key is set, the body parses, the question is a non-empty string and the messages field is absent or an array; it carries the key as bearer token |
| AskRoute.SentRequestCarriesHistory | app/api/ask-ai/route.ts:96-151 | whenever the route calls upstream, the request is authorised with the key and names the model, its user message carries the history of the last messages or the no-history text, and a `todos` field that is not an array gives the no-todos context |
| AskRoute.LastMessages | app/api/ask-ai/route.ts:99-100 | the snippet uses the last min(n, 6) messages, in order |
| AskRoute.SnippetLines | app/api/ask-ai/route.ts:99-102 | splitting the snippet at line breaks gives back the history lines, at most six |
| AskRoute.HistoryFallbackIff | app/api/ask-ai/route.ts:127 | "No previous messages." is used exactly when there are no messages |
| AskRoute.ContextFallbackUnused | app/api/ask-ai/route.ts:124 | the "No todos found." substitute is never used: the context text is never empty |
| AskRoute.RequestCarriesQuestion | app/api/ask-ai/route.ts:104-132 | the chat request carries the fixed system prompt, and its user message contains the question and the context text |
| AskRoute.SentRequestCarriesQuestion | app/api/ask-ai/route.ts:117-151 | whenever the route calls upstream, the user message contains the question and the ranked context |
| AskRoute.AnswerShapes | app/api/ask-ai/route.ts:153-167 | a non-OK upstream gives 502 and nothing else does; only a completed call gives a reply, which is trimmed or the fixed fallback |
| AskRoute.ResponseShapes | app/api/ask-ai/route.ts:73-175 | statuses are 400, 500 or 502; 502 exactly when the call was made and upstream failed; a reply exactly when the call was made and completed |
| AskRoute.ResponseWithoutCall | app/api/ask-ai/route.ts:76-94 | without an upstream call the response is an error of status 400 or 500 |
| AskRoute.ReplyIsTrimmedContent | app/api/ask-ai/route.ts:162-167 | trimmed content is returned as is, and missing content gives the fixed reply |
| TodoStore.Get | convex/todos.ts:20-25 | the result is the stored todo with that id, and is none exactly when the id is absent |
| TodoStore.GetFinds | convex/todos.ts:22-24 | with unique ids, every stored todo is found by its id |
| TodoStore.List | convex/todos.ts:5-17 | the list holds only stored todos with the requested completion state |
| TodoStore.ListMembers | convex/todos.ts:7-15 | every stored todo with the requested state is listed |
| TodoStore.ListNewestFirst | convex/todos.ts:7-15 | the list is newest first when creation times follow insertion order |
| TodoStore.ListPartition | convex/todos.ts:7-15 | the completed and the pending lists together are exactly the full list, which holds exactly the table |
| TodoStore.CreateFacts | convex/todos.ts:35-41 | create stores the given fields under the fresh id, pending and created now, leaves every other id unchanged, and keeps ids unique and creation times ordered |
| TodoStore.UpdateFacts | convex/todos.ts:45-55 | update replaces exactly the supplied fields of that todo; completion, creation time and every other todo stay |
| TodoStore.Update | convex/todos.ts:53-55 | update fails exactly when the id is absent |
| TodoStore.UpdateIdempotent | convex/todos.ts:53-55 | an empty patch changes nothing, and applying a patch twice equals applying it once |
| TodoStore.ToggleComplete | convex/todos.ts:61-64 | toggling fails with "Todo not found" exactly when the id is absent |
| TodoStore.ToggleFacts | convex/todos.ts:61-64 | toggling flips only that todo's completion and leaves every other id unchanged |
| TodoStore.ToggleTwice | convex/todos.ts:59-65 | toggling the same id twice restores the table |
| TodoStore.Remove | convex/todos.ts:69-72 | remove fails exactly when the id is absent |
| TodoStore.RemoveFacts | convex/todos.ts:69-72 | remove deletes that id, leaves every other id unchanged, and with unique ids shrinks the table by one |
| Auth.ByEmail | convex/auth.ts:14-17 | the index lookup finds the first user with that email, and none exactly when no user has it |
| Auth.SignUp | convex/auth.ts:12-36 | sign-up fails with "User already exists" exactly when the email is taken; otherwise it appends one user and keeps the rest |
| Auth.SignUpFacts | convex/auth.ts:23-35 | the new user stores the hash, the display name and no reset token; the reply echoes the name argument; unique emails stay unique |
| Auth.DisplayNameRule | convex/auth.ts:27 | the stored name is the given name when non-empty, else the part of the email before the first "@" |
| Auth.PlaintextIgnored | convex/auth.ts:24-58 | sign-up and sign-in never depend on the plaintext password argument |
| Auth.SignInIff | convex/auth.ts:46-69 | sign-in succeeds exactly when the first user (in creation order) with that email exists and its stored password equals the hash; both failures give the same error; success returns the token passed in |
| Auth.SignUpThenSignIn | convex/auth.ts:12-69 | after signing up, signing in with the same email and hash succeeds with the new id and display name |
| Auth.GetCurrentUser | convex/auth.ts:76-86 | the current user is none exactly when the id is absent; otherwise it carries that id and the email and name of the first user holding it |
| Auth.CurrentUserIsStored | convex/auth.ts:78-85 | a stored user is returned with its own id, email and name |
| Auth.SignUpThenCurrentUser | convex/auth.ts:81-85 | after signing up, the current user under the new id has the email and the display name |
| Auth.HexByte | convex/auth.ts:95 | a byte becomes exactly two lower-case hex digits |
| Auth.Hex | convex/auth.ts:94-95 | a digest of n bytes becomes 2n hex digits |
| Auth.HexRoundTrip | convex/auth.ts:94-95 | decoding the hex text gives back the bytes |
| Auth.HexInjective | convex/auth.ts:95-104 | different byte strings give different hex texts, and a 32-byte token is 64 characters |
| Auth.RequestPasswordReset | convex/auth.ts:135-174 | a reset request always reports success and never adds or removes users |
| Auth.RequestResetFacts | convex/auth.ts:141-173 | an unknown email changes nothing and returns no token; a known one gets the token and an expiry of now plus one hour, and no other user changes |
| Auth.ResetPassword | convex/auth.ts:186-205 | a reset fails with "Invalid or expired token" exactly when the first user (in creation order) holding the token is missing or its expiry is absent, zero or before now, and then changes nothing |
| Auth.ResetFacts | convex/auth.ts:197-204 | a successful reset stores the new hash, clears the token and expiry, changes no other user, and replaying the token fails |
| Auth.RequestThenReset | convex/auth.ts:193-204 | a freshly issued token resets the password exactly until one hour after the request, expiry instant included |
| Auth.VerifyMatchesReset | convex/auth.ts:215-225 | the token check says valid exactly when a reset at the same instant would succeed |
| Pagination.PageNumbersShape | components/shared/Pagination.tsx:14-44 | one page gives [1]; otherwise the numbers are 1, the window from max(2, page-2) to min(totalPages-1, page+2), and totalPages, strictly increasing and within 1..totalPages |
| Pagination.PageNumbersEnds | components/shared/Pagination.tsx:29-41 | the first entry is 1 and the last is totalPages; for an in-range page an ellipsis follows 1 exactly when page-2 > 2 and precedes totalPages exactly when page+2 < totalPages-1; at most 9 entries |
| Pagination.GetPageNumbers | components/shared/Pagination.tsx:14-44 | the loop that builds the window yields exactly the specified button list |
| Pagination.CurrentPageShown | components/shared/Pagination.tsx:21-41 | an in-range page appears among the buttons |
| Pagination.DotsHidePages | components/shared/Pagination.tsx:29-41 | for an in-range page each ellipsis stands for at least one hidden page |
| Pagination.AdjacentPagesConsecutive | components/shared/Pagination.tsx:21-41 | two adjacent page buttons are consecutive numbers |
| Pagination.OutOfRangeDotsHideNothing | components/shared/Pagination.tsx:29-41 | for a page beyond the last an ellipsis can appear between 1 and 2, hiding nothing |
| Pagination.TotalPages | components/shared/Pagination.tsx:52 | the page count is at least 1 and is the least count whose pages hold the total |
| Pagination.Render | components/shared/Pagination.tsx:52-55 | the pager renders exactly when the total exceeds one page size, and then shows the button list for the current page |
| Pagination.PageButtonsAccepted | components/shared/Pagination.tsx:76-96 | every numbered button the pager renders names a page in range, so clicking it is accepted |
| Pagination.ArrowsStayInRange | components/shared/Pagination.tsx:65-67 | from an in-range page the arrows reach the neighbouring pages and are ignored at the ends |
| PaginationContext.GoToPage | context/PaginationContext.tsx:33-40 | an out-of-range target leaves page and search unchanged; an in-range one sets the page to it; search never changes |
| PaginationContext.SearchLandsOnValidPage | context/PaginationContext.tsx:41-44 | a new search resets to page 1, which the pager accepts for every list size, so the state after a search is a valid one |
| PaginationContext.FirstPageAlwaysAccepted | context/PaginationContext.tsx:34-35 | page 1 is always accepted |
| PaginationContext.AgreesWithSelector | context/PaginationContext.tsx:33-40 | the context moves to a page exactly when the pager's own check accepts it, or it is already there |
| TodoViews.ToggleOnlyMatching | features/homo/components/TodoList.tsx:75-79 | the optimistic toggle changes no field except completion, and that only on matching entries |
| TodoViews.ToggleRollback | features/homo/components/TodoList.tsx:75-87 | the failure rollback restores the list exactly |
| TodoViews.OptimisticMatchesServer | features/homo/components/TodoList.tsx:73-102 | on the full table the optimistic toggle and delete equal the server's toggle and remove |
| TodoViews.OptimisticDisplay | features/homo/components/TodoList.tsx:114-118 | after a toggle the optimistic copy is displayed, and the rollback displays the original list |
| TodoViews.GoToPage | features/homo/components/TodoList.tsx:104-111 | the screen's page change agrees with the pager's check: only pages in 1..totalPages are written |
| TodoViews.PagerShown | features/homo/components/TodoList.tsx:130 | the pager is shown exactly when the total exceeds one page |
| TodoViews.SearchFilterConcat | features/homo/components/TodoList.tsx:132-137 | the filter works entry by entry and keeps order: one todo is kept exactly when its lower-cased title or description contains the search |
| TodoViews.SearchFilterKeeps | features/homo/components/List.tsx:49-52 | every matching todo is kept |
| TodoViews.EmptySearchKeepsAll | features/homo/components/List.tsx:49-52 | an empty search keeps the list unchanged |
| TodoViews.SectionsOf | features/homo/components/TodoList.tsx:139-149 | pending and completed split the filtered list exactly, each todo in the one its state says, and the stats are their sizes |
| TodoViews.ListScreen | features/homo/components/List.tsx:26-64 | a missing query result yields empty sections with zero counts; without a search the stats add up to the whole list |
| TodoViews.OverdueFacts | features/homo/components/List.tsx:166 | a pending todo with a (truthy) due date becomes overdue right after that date and stays so as time passes; a zero or missing date is never overdue; completing the todo clears it |
| TodoModel.PendingCompletedPartition | features/homo/components/List.tsx:54-55 | pending and completed together hold every todo once per occurrence, each holding only todos of its state |
| Transliterate.MapCharsConcat | components/ai-assistant/utils.ts:11-16 | the mapping works character by character, in order: each character becomes its table entry, or itself when it has none |
| Transliterate.DropNonAsciiConcat | components/ai-assistant/utils.ts:17 | dropping works character by character, in order: a character is kept exactly when it is ASCII |
| Transliterate.TransliterateFacts | components/ai-assistant/utils.ts:8-20 | the output is the words of the mapped text, with non-ASCII characters dropped, joined by single spaces; so it is ASCII, has no whitespace at its ends, and keeps exactly the visible ASCII characters of the mapped text |
| Transliterate.CollapseSingle | components/ai-assistant/utils.ts:18 | collapsing leaves every whitespace a single plain space and keeps the words, so each whitespace run becomes exactly one space |
| Transliterate.CollapseVisible | components/ai-assistant/utils.ts:18 | collapsing keeps the non-whitespace characters exactly |
| Transliterate.Unchanged | components/ai-assistant/utils.ts:13-19 | a trimmed, single-spaced ASCII text with no table characters is returned unchanged |
| Transliterate.Idempotent | components/ai-assistant/utils.ts:9-19 | with non-ASCII table keys, applying the filter twice equals applying it once |
| Transliterate.GeorgianPhrasesUnreachable | components/ai-assistant/MessageInput.tsx:58-62 | for a question typed into the message box, the next-action test holds exactly when one of the English phrases occurs: the Georgian phrases never match |
| AuthSchemas.SignInIssues | features/auth/schemas/auth-schemas.ts:3-6 | sign-in passes exactly when the email is valid and the password has at least 6 characters, and issues name only those two fields |
| AuthSchemas.ForgotPasswordIssues | features/auth/schemas/auth-schemas.ts:9-11 | forgot-password checks only the email |
| AuthSchemas.ResetPasswordIssues | features/auth/schemas/auth-schemas.ts:14-22 | reset passes exactly when the password has 6 characters and matches; a mismatch is reported on confirmPassword, a short password on password |
| AuthSchemas.SignUpIssues | features/auth/schemas/auth-schemas.ts:24-34 | sign-up passes exactly when the name has 2 characters, the email is valid, the password has 6 characters and matches |
| AuthSchemas.SignUpMessages | features/auth/schemas/auth-schemas.ts:24-34 | each sign-up field shows exactly its own rule's message, and only when that rule fails |
| AuthSchemas.SignUpPassesSignIn | features/auth/schemas/auth-schemas.ts:3-34 | credentials that pass sign-up pass sign-in and the reset form |
| TodoForm.Issues | features/homo/components/TodoForm.tsx:33-41 | the form passes exactly when the title has 1 to 100 characters and a description has at most 500; each message appears exactly when its rule fails |
| TodoForm.Defaults | features/homo/components/TodoForm.tsx:96-101 | with no initial data the form starts empty with medium priority; otherwise from the data: the same title and priority, the description or the empty text when there is none, and the date unless it is zero |
| TodoForm.OnSubmit | features/homo/components/TodoForm.tsx:122-155 | create without a user shows the log-in toast and calls nothing; edit without an id calls nothing but still resets; a call goes only to the mode's mutation with a non-empty id; with a user (create) or an id (edit) the mutation is called, and after a call the form resets exactly when the call succeeds, showing the failure toast on failure and the mode's success toast otherwise; the create arguments and the edit patch carry the form's title, priority and due date, with an empty description sent as absent |
| TodoForm.EditStoresValues | features/homo/components/TodoForm.tsx:136-147 | a successful valid edit stores the form's title and priority, its description unless empty, its due date when set, and leaves completion and creation time alone |
| TodoForm.Submit | features/homo/components/TodoForm.tsx:94-95 | invalid values never reach a mutation |
| TodoForm.CreateStoresValues | features/homo/components/TodoForm.tsx:129-136 | a valid create stores a pending todo with the submitted title, priority and date, and the description unless empty |
| TodoForm.UntouchedEditIsNoOp | features/homo/components/TodoForm.tsx:138-146 | saving the edit form untouched leaves the todo exactly as it was |
| TodoForm.ClearingKeepsOldValues | features/homo/components/TodoForm.tsx:142-144 | clearing the description or the date and saving keeps the old values, since an absent field means "leave as it is" |
| TodoForm.DefaultsValidity | features/homo/components/TodoForm.tsx:96-101 | the create form starts invalid; the edit form of a schema-valid todo starts valid |
| Sorting.SortByStable | convex/ai.ts:41-43 | the sort keeps the input order of entries that compare equal |
| Sorting.SortBySorted | convex/ai.ts:41-43 | with a consistent comparator the sort's output is ordered by it |
| Sorting.TakeKeepsBest | convex/ai.ts:45-53 | taking a prefix of a sorted list keeps entries no worse than any left out |
| Text.SplitJoin | app/api/ask-ai/route.ts:102 | splitting a join at its separator gives back the pieces when none holds the separator |
| Text.Trim | app/api/ask-ai/route.ts:164 | the trimmed text is the slice of the input left after cutting whitespace from both ends: everything cut is whitespace, and the result neither starts nor ends with whitespace |
| Text.WordsConcat | convex/ai.ts:26 | splitting two texts joined by a space at whitespace gives the words of the first followed by those of the second |
| Text.WordsSingle | convex/ai.ts:26 | a non-empty text without whitespace is one word |

## Left out

- Unicode `toLowerCase`: the model lower-cases ASCII letters only; other characters are kept.
- zod's email pattern: whether a text is an email address is a parameter (`AuthSchemas.EmailCheck`).
- String lengths are counted in Unicode characters, not UTF-16 code units, so a title with characters outside the basic plane counts shorter than JavaScript counts it.
- SHA-256 (`crypto.subtle.digest`) and `crypto.getRandomValues`: the digest and the random bytes are parameters; only their hex encoding is modelled.
- The chat-completion `fetch`, `process.env` and JSON parsing in the route: the key, the parsed body and the upstream outcome are parameters; the `temperature` number is not part of the modelled request.
- The Convex database, its indices, `ctx.scheduler`, `sendEmail` and `sendEmailAction`: tables are sequences in insertion order; `Date.now()` is the parameter `now`; fresh document ids are parameters. The error text of a patch or delete on a missing document stands in as `TodoStore.MissingDocument`; a missing email index entry is a linear search.
- The reset-link log line and the e-mail scheduled by `requestPasswordReset`: I/O.
- `formatMessageTime` and date-fns formatting: locale and time-zone dependent.
- Calls between modules whose shapes do not match the mutations they call. `askAssistant` passes `{userId, page}` to `list` and reads `.todos`, while `list` accepts only `{completed}` and returns an array. It is modelled with the user's todos as a parameter. The paginated list (`features/homo/components/TodoList.tsx` line 48) passes `{page, userId}` to `list` as well and reads `.todos`, `.total` and `.pageSize` from its answer (lines 58-64 and 114-120). `TodoViews.ListResult` stands for that intended answer; the real call is rejected. The todo form sends `userId` to `create` and `{id, patch}` to `update`, neither of which the validators accept. The model passes the intended fields (`TodoForm.Call`); argument validation is not modelled.
- The route's `messages` and `todos` elements are taken as well-formed. Per-element type coercion of a malformed array is not modelled. This includes a todo without a priority, which the route shows as `medium` (`app/api/ask-ai/route.ts` lines 61-63); every modelled todo has a priority.
- TodoViews.ToggleRollback: covers only a failed toggle with no query result arriving between the optimistic flip and the rollback. A result in between replaces the local list (`features/homo/components/TodoList.tsx` lines 58-64), and the rollback then flips the fresh list instead of restoring the old one.
- A page size of 0 (JavaScript division by zero): every pagination member requires a positive page size.
- The transliteration tables: the Georgian and Russian maps are data and are a parameter (`Transliterate.CharMap`).
- `TodoCard.tsx` (its overdue test duplicates the one in `List.tsx`), `seed.ts`, `priorityConfig.ts`, and the `slice(-8)` of the message history in `components/ai-assistant/index.tsx`: duplicates or fixed data.
- The plain list's loading state: while the query result is missing, `features/homo/components/List.tsx` (lines 61-81) shows a spinner and hides the stats and the empty-list message. `TodoViews.ListScreen` yields empty sections then, and which elements are drawn is not modelled.
- React rendering, routing, toasts other than those of the todo form, theme and localStorage: the values read from localStorage and the URL are parameters.
- Assistant.PlanContents: the plan's order, and which todos it selects when four or more pending todos share a priority, are those of the stable insertion sort (`Sorting.SortBy`). The comparator at `convex/ai.ts` lines 87-95 is not a consistent order (`Assistant.ImportanceNotTransitive`), and ECMAScript leaves the result of `sort` with such a comparator implementation-defined, so V8's TimSort may order these todos differently.
- Assistant.Top3Facts: states ordering by priority rank only, not by the full comparator, because the due-date and creation-time keys do not form a transitive order (`Assistant.ImportanceNotTransitive`); the full order is proved where due dates are uniform.
