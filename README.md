# Social-media bot helpers and OAuth callback receivers, modelled in Dafny

This project models four small pieces of a social-media auto-responder:

- **The prompt lists of the two completion-service interfaces** (`code/bot.py`).
  `GPTInterface` and `ModelInterface` each keep a Python list of single-key
  dicts such as `{'user': text}`. Their methods append to it, remove from it in
  place and change the model name. They are modelled as Dafny classes whose
  `seq<map<string, string>>` field is reassigned by each method (module `Bot`).
  The list operations themselves are in module `PromptList`:
  - `list.remove` deletes the first value-equal element;
  - the forward `for` loop that removes from the list it walks;
  - the backward scan of `removeMostRecentUserPrompt`.
- **The e-commerce look-ups** (`EcommerceBot/utils.py`, module `EcommerceUtils`).
  Each of the username check, the tracking-number check and the package look-up
  is a method with the source's loop. Each is proved equal to a declarative
  definition, and the properties are proved about that definition.
- **The take-once auth slot** (`server.py`, module `AuthCallback`). `/auth`
  fills it with code and state; `/get` reads and clears it.
- **The earlier take-once URL slot** (`code/server.py`, module `UrlCallback`).

Module `Python` holds the Python values an untyped argument can take: `None`, a
string, or another object with its truthiness and `str()` text. Module `Http`
holds the `(body, status)` pairs the Flask views return.

Some of the modelled code does not do what its authors evidently meant. The
model keeps it as written:
- `ModelInterface.setSystemPrompt` and `ModelInterface.addAssistantPrompt` pass
  `self` twice to `validatePrompt`, so both always raise `TypeError`.
- `removeMostRecentUserPrompt` looks for a `'role'` key that no appended entry
  has.
- The removal loops skip the entry that follows each removed one.

`ModelInterface`'s class invariant says its list is empty or holds one user
entry. Its own methods keep it, because the only one that adds an entry is
`setUserPrompt`, and that first removes the user entry already there. So the
skipped-entry bug above shows only on a list assigned to `modelInput`
directly. The methods do not require the invariant, so the model covers such
lists too.

## Model

| member | source | states |
|---|---|---|
| `PromptList.FirstIndex` | code/bot.py:51 | the position `list.remove` picks holds the value, and no earlier position does |
| `PromptList.RemoveFirst` | code/bot.py:51 | `list.remove` deletes the first copy of the value: the entries before and after it keep their order, the list is one shorter, and exactly one copy leaves its multiset |
| `PromptList.SweepRemovesOnlyKind` | code/bot.py:142-147 | the remove-while-iterating loop never adds an entry; every entry without the key survives, in its original order |
| `PromptList.SweepApartIsWithoutKind` | code/bot.py:145-147 | when no two entries with the key are neighbours, the loop leaves exactly the entries without the key |
| `PromptList.Sweep` | code/bot.py:145-147 | the remove-while-iterating loop never adds an entry and never lengthens the list: its result is a sub-multiset of the input |
| `PromptList.SweepKeepsSecondOfAdjacent` | code/bot.py:145-147 | a list that starts with two entries with the key, followed only by entries without it, keeps the second of the two |
| `PromptList.SweepNotApartKeepsKind` | code/bot.py:145-147 | whenever two entries with the key are neighbours somewhere in the list, at least one entry with the key survives the loop |
| `PromptList.SweepClearsIffApart` | code/bot.py:145-147 | the loop removes every entry with the key exactly when no two of them are neighbours |
| `PromptList.WithoutKind` | code/bot.py:142-147 | the intended result of the loop: no entry with the key remains, every value without it still occurs, nothing is added |
| `PromptList.WithoutKindKeepsCopies` | code/bot.py:142-147 | the intended result keeps every copy of each entry without the key: its count is the same as in the input |
| `PromptList.MostRecentRoleUser` | code/bot.py:47-50 | the backward scan finds the last entry whose `'role'` is `'user'`, or reports that there is none |
| `PromptList.RemoveMostRecentRoleUser` | code/bot.py:47-52 | with no match the list is unchanged; with a match exactly one entry leaves, a copy of the last matching entry, and the list is one shorter |
| `PromptList.RemoveMostRecentAtMostOne` | code/bot.py:45-52 | the scan removes at most one entry, and only one whose `'role'` is `'user'` |
| `PromptList.RemoveMostRecentNoRoleUser` | code/bot.py:47-52 | with no entry whose `'role'` is `'user'`, the list is left unchanged |
| `PromptList.PromptEntriesHaveNoRole` | code/bot.py:36-50 | on a list made only of entries the append helpers build, the scan removes nothing, because those entries have no `'role'` key |
| `Bot.GPTInterface.constructor` | code/bot.py:11-21 | empty input list, default model and instructions, stateless conversation, empty response-id dictionary |
| `Bot.GPTInterface.AddSystemPrompt` | code/bot.py:36-37 | appends exactly `{'system': prompt}` at the end; earlier entries and all other fields are unchanged |
| `Bot.GPTInterface.AddAssistantPrompt` | code/bot.py:39-40 | appends exactly `{'assistant': prompt}` at the end; earlier entries and all other fields are unchanged |
| `Bot.GPTInterface.AddUserPrompt` | code/bot.py:42-43 | appends exactly `{'user': prompt}` at the end; earlier entries and all other fields are unchanged |
| `Bot.GPTInterface.RemoveMostRecentUserPrompt` | code/bot.py:45-52 | the list afterwards is the backward scan's result; it is at most one entry shorter |
| `Bot.GPTInterface.ChangeModel` | code/bot.py:54-58 | the empty string raises and keeps the model; any other value becomes the model, as its f-string text |
| `Bot.GPTInterface.SetInput` | code/bot.py:60-64 | the empty list raises and keeps the input; any other list replaces it wholesale |
| `Bot.GPTInterface.PreviousResponseId` | code/bot.py:68 | no id while the conversation is stateless; otherwise an id exactly when the user is a string key of the dictionary, and then the one recorded under it |
| `Bot.GPTInterface.SendMessage` | code/bot.py:66-83 | the request carries the input with `{'user': message}` appended, and no previous response id while stateless; the response id is recorded under the user; the input ends one entry longer when no entry had `'role'` set to `'user'` |
| `Bot.ValidatePrompt` | code/bot.py:123-125 | passes exactly the non-empty strings; anything else raises |
| `Bot.ModelInterface.constructor` | code/bot.py:112-121 | empty model input, which satisfies the class invariant (the list is empty or holds one user entry), and the default model |
| `Bot.ModelInterface.SetSystemPrompt` | code/bot.py:127-135 | always raises `TypeError` before touching the list |
| `Bot.ModelInterface.AddAssistantPrompt` | code/bot.py:137-140 | always raises `TypeError` before touching the list |
| `Bot.ModelInterface.RemoveEntriesWithKey` | code/bot.py:153-155 | the forward removal loop leaves the list the loop's definition gives; a list that met the class invariant still meets it |
| `Bot.SweepKeepsUserSlot` | code/bot.py:142-157 | on an empty list or a single user entry, the removal loop keeps that shape, and removing the `'user'` key empties the list |
| `Bot.ModelInterface.ClearAssistantPrompts` | code/bot.py:142-147 | non-assistant entries all survive in order; when no two assistant entries are neighbours, every assistant entry is removed; the class invariant is kept |
| `Bot.ModelInterface.SetUserPrompt` | code/bot.py:149-157 | an invalid prompt raises with the list untouched; a valid one ends the list with `{'user': prompt}` and non-user entries all survive in order; from a list that met the class invariant, the list becomes exactly `[{'user': prompt}]` |
| `Bot.ModelInterface.SetModel` | code/bot.py:159-164 | any string, the empty one included, becomes the model; `None` or a non-string raises and keeps the model |
| `EcommerceUtils.ValidateUsername` | EcommerceBot/utils.py:5-12 | false exactly when some character of the username is one of `! @ # $ % ^ & * ( )` |
| `EcommerceUtils.UsernameInvalidExtends` | EcommerceBot/utils.py:8-12 | an invalid username stays invalid inside any longer string |
| `EcommerceUtils.EmptyUsernameValid` | EcommerceBot/utils.py:5-12 | the empty username is valid |
| `EcommerceUtils.Contains` | EcommerceBot/utils.py:21 | `needle in hay` holds exactly when the needle occurs as a contiguous run |
| `EcommerceUtils.ValidateTrackingNumber` | EcommerceBot/utils.py:17-24 | false exactly when one of `432`, `dr3`, `hf2`, `111`, `625cdw` occurs in the number |
| `EcommerceUtils.TrackingNumberInvalidExtends` | EcommerceBot/utils.py:18-24 | an invalid tracking number stays invalid whatever prefix or suffix is added |
| `EcommerceUtils.EmptyTrackingNumberValid` | EcommerceBot/utils.py:17-24 | the empty tracking number is valid |
| `EcommerceUtils.SplitFrom` | EcommerceBot/utils.py:35-36 | `str.split()` yields only non-empty words without whitespace |
| `EcommerceUtils.SplitBlank` | EcommerceBot/utils.py:35 | an empty or all-whitespace string has no words |
| `EcommerceUtils.SplitWord` | EcommerceBot/utils.py:35-36 | a non-empty string without whitespace is a single word |
| `EcommerceUtils.SplitAtSpace` | EcommerceBot/utils.py:35-36 | a whitespace character separates words: the words of `a`, a space, then `b` are those of `a` followed by those of `b` |
| `EcommerceUtils.GetPackage` | EcommerceBot/utils.py:29-42 | the result is the Dover or the Boston record; it is Boston exactly when some word of the user is also a word of the number |
| `EcommerceUtils.PackageForSymmetric` | EcommerceBot/utils.py:35-42 | swapping the user and the number never changes the record |
| `EcommerceUtils.BlankUserGetsDover` | EcommerceBot/utils.py:35-41 | an empty or all-whitespace user gets the Dover record |
| `EcommerceUtils.SameWordGetsBoston` | EcommerceBot/utils.py:35-42 | one word given as both user and number gets the Boston record |
| `AuthCallback.Server.constructor` | server.py:4 | the slot starts empty |
| `AuthCallback.Server.StoreAuth` | server.py:6-17 | a non-empty code is stored with url and state, even a missing state, over any earlier record, with 200; a missing or empty code gives 400 and leaves the slot unchanged |
| `AuthCallback.Server.RetrieveUrl` | server.py:19-27 | a filled slot returns its record with 200; an empty slot returns the error object with 404; either way the slot is empty afterwards |
| `AuthCallback.GetTwice` | server.py:19-27 | of two `/get` requests in a row, the second answers 404; the first succeeds exactly when the slot was filled |
| `UrlCallback.Server.constructor` | code/server.py:5 | the slot starts empty |
| `UrlCallback.Server.StoreUrl` | code/server.py:7-11 | always stores the request URL over any earlier one and answers 200 with an empty body |
| `UrlCallback.Server.RetrieveUrl` | code/server.py:13-21 | a stored non-empty URL returns `{'data': url}` with 200 and clears the slot; otherwise 401, and a stored empty URL stays |
| `UrlCallback.GetTwice` | code/server.py:13-21 | of two `/get` requests in a row, the second answers 401 |

## Left out

- `GPTInterface.sendMessage`'s call to the completion service is not modelled. The response id is a parameter, and the method returns the request it would send instead of the service's response.
- `ModelInterface.getModelResponse` is not modelled. It is a call to the completion service and reads attributes that are never set.
- `SocialMediaChatbot`, `TwitterInterface`, `ModelInterface.useCustomInputJSON`, `ModelInterface.sendModelRequest` and the `__str__` methods are not modelled. They are empty stubs or printing.
- The service clients, API keys and environment loading are not modelled. So are the fields `previousConversationId`, which nothing reads, and `userToLastConversationId`, which only the left-out `getModelResponse` reads.
- code/main.py and EcommerceBot/server.py are not part of this model. They are glue and Flask routing; the latter's only logic is the look-ups modelled here.
- Flask request parsing and `jsonify` serialisation are not modelled. Handlers take the request URL and query arguments as parameters and return bodies as values.
- Concurrent requests against the global slots are not modelled. Requests are a sequential trace of method calls.
- `EcommerceUtils.SplitFrom`: whitespace is the ten ASCII characters Python treats as whitespace. The non-ASCII whitespace that `str.split()` also splits at is not modelled.
- Prompt-list entries are always dicts from string to string. In Python, `setInput` could store a list of other objects; the model does not cover that, so the `isinstance(entry, dict)` test always holds here.
- `setInput` stores the caller's own list object, so later changes through either reference are shared. The model stores a value, so that aliasing is not modelled. The request `sendMessage` builds is likewise a snapshot of the list.
- Exception messages are reduced to the kind of failure. The formatted `validatePrompt` and `setModel` texts are not reproduced.
- Values of `str` subclasses and objects with a custom `__eq__` are not modelled.

## Findings

| source | as written | input that shows it | evidently intended | confidence | as-written member | corrected member |
|---|---|---|---|---|---|---|
| code/bot.py:145-147 | the loop removes entries from the list it is iterating forward over, so the entry moving into each freed slot is never examined | `modelInput = [{'assistant': 'a'}, {'assistant': 'b'}]`, then `clearAssistantPrompts()` leaves `[{'assistant': 'b'}]` | every assistant entry removed, all others kept in order | high, not executed | `PromptList.SweepKeepsSecondOfAdjacent` | `PromptList.WithoutKind` |
