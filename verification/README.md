# Telegram video catalog, modelled in Dafny

The repository scrapes a Telegram channel or group for video posts and publishes them as a
static `index.html`. Two scripts do this.

- The second script of `main.py` (lines 83-289) runs on a user account. It takes every post
  that has a video, oldest first. It links public chats by handle and private chats by the
  `c/<chat id>` form. It attaches a best-effort base64 preview image.
- `bot_videos.py` runs on a bot account. It keeps only videos of 10 minutes to 2 hours
  from chats with a public handle, in the order the client iterates them (newest first).

Each script then renders its rows through its own `gerar_html`. The page is a fixed head,
then either a "no videos" paragraph or one card per row, then a fixed foot. Captions are
HTML-escaped, `&` first, then `<`, then `>`. The first script of `main.py` only resolves an
invite link: the hash is the last `/`-segment without `+`, and the full chat id is the id
prefixed with `-100`.

The model is functional. A chat is an `Entity` with an optional title and handle. A post is
a `Message` with an id, its chat, an optional `Video` and an optional text. A video has an
optional duration and a list of preview sizes. The client's history is a `seq<Message>` in
newest-first order. The thumbnail download together with its base64 encoding is a parameter
`fetch: Thumb -> Option<string>`, where `None` is a download that raised. The Python string
operations the scripts use (`str.replace`, `str.split`, `str(int)`, `int(str)`) are written
out in module `Text` with Python's semantics. Modules:

- `Wrappers`: `Option`.
- `Seqs`: reverse, filter, map, and their order and membership lemmas.
- `Text`: decimal conversion, replace-all, split, concatenation.
- `Html`: the three chained replaces and their inverse.
- `Telegram`: the data model, links, the caption default and the supergroup marker.
- `InviteLink`: the first script of `main.py`.
- `AccountCatalog` and `AccountPage`: the second script of `main.py`.
- `BotCatalog` and `BotPage`: `bot_videos.py`.

Each pipeline loop is a `method` proved equal to a functional definition. The lemmas state
the promised properties of that definition.

Two properties of the code shape the model:

- Both `gerar_html` functions escape exactly `&`, `<` and `>`. Quotes are not escaped.
- `bot_videos.py` does not reverse the history. Its rows are newest first; only the
  user-account script gives oldest-first rows.

## Model

| member | source | states |
|---|---|---|
| Text.IntToString | main.py:265 | `str(n)` of an id, as `Telegram.MessageLink` prints it after `https://t.me/<prefix>/`, is non-empty, starts with `-` exactly when the id is negative, and is digits after the first character |
| Text.ParseIntToString | main.py:80 | `int` applied to `str(n)` gives back `n` |
| Text.IntToStringInjective | main.py:265 | distinct post ids print differently, so distinct posts of one chat get distinct links |
| Text.ReplaceAllNoMatch | main.py:227 | `ReplaceAll`, the model of `str.replace` (left to right, non-overlapping), leaves a string in which the pattern occurs nowhere unchanged |
| Text.ReplaceAllDelete | main.py:68 | replacing a one-character pattern by the empty string deletes every occurrence of that character and keeps the rest in order |
| Text.Split | main.py:68 | `split` gives at least one piece; exactly the whole string when the separator is absent, and more than one piece when it occurs |
| Text.ConcatMap | main.py:180-196 | the generator's loop appends one text per element, in input order; both page generators use it for their cards |
| Text.LastPieceSpec | main.py:68 | `split(d)[-1]` is a suffix of the input without `d`, which is either the whole input or preceded by `d` |
| Html.EscapeIsPerCharacter | main.py:181 | `Escape`, the chained replaces (`&` first, also used at bot_videos.py:57), equal escaping each character on its own: `&`, `<`, `>` become their entity codes and every other character stays |
| Html.EscapeHasNoAngles | main.py:181 | an escaped caption contains no `<` and no `>` |
| Html.EscapeAmpersands | main.py:181 | every `&` in an escaped caption starts `&amp;`, `&lt;` or `&gt;` |
| Html.UnescapeEscape | main.py:181 | undoing `&lt;`, then `&gt;`, then `&amp;` recovers the original caption |
| Html.EscapePlain | main.py:181 | a caption without `&`, `<` and `>` is embedded unchanged |
| Telegram.Caption | main.py:267 | the caption is never empty; it is the post's text when that is non-empty and the default `Vídeo sem legenda` otherwise |
| Telegram.StripMarkerOfId | main.py:227 | removing `-100` from a printed chat id removes it exactly when the id begins with it, and changes nothing otherwise |
| InviteLink.InviteHash | main.py:68 | the invite hash contains neither `/` nor `+` |
| InviteLink.InviteHashSpec | main.py:68 | the hash is the text after the last `/` of the link with every `+` deleted |
| InviteLink.PlusLinkHash | main.py:66-68 | a link `<site>/+<hash>` whose hash has no `/` or `+` gives back exactly that hash |
| InviteLink.FullChatId | main.py:79-80 | parsing `-100` followed by the printed chat id succeeds exactly when the chat id is not negative |
| InviteLink.FullChatIdPrints | main.py:80 | for a chat id `n` not below zero, the full chat id prints as `-100` followed by the digits of `n` |
| InviteLink.MarkerRoundTrip | main.py:80 | prefixing a chat id with `-100` and then removing `-100` from the printed full id gives back the decimal chat id |
| AccountCatalog.Thumbnail | main.py:250-262 | no preview sizes give `""`; a successful fetch of the last, largest size gives its result; a failed fetch of that size gives `""`; a non-empty thumbnail is always the fetch of that last size |
| AccountCatalog.ReverseList | main.py:235-240 | collecting the history and reversing it gives the history in the opposite order |
| AccountCatalog.CollectCatalog | main.py:219-272 | the script's pass over the reversed history produces exactly the functional catalog |
| AccountCatalog.CatalogIsReversed | main.py:235-247 | the rows are the reverse of the rows that a pass in iteration order would give, one per video post |
| AccountCatalog.CatalogOldestFirst | main.py:239-240 | a history iterated newest first gives rows whose posts go oldest first |
| AccountCatalog.SourcesAreVideoPosts | main.py:244-247 | a post gives a row exactly when it is in the history and has a video; there is no duration condition |
| AccountCatalog.CatalogMembership | main.py:244-272 | a row is in the catalog exactly when some video post of the history produces it |
| AccountCatalog.CatalogThumbnails | main.py:250-272 | a failed or missing thumbnail never drops a row or changes its link and caption; each row's thumbnail is its post's preview as `Thumbnail` pins it: the fetched largest size when the fetch succeeds, `""` otherwise |
| AccountCatalog.PublicLinks | main.py:223-224 | through `LinkPrefix` and `MessageLink`: in a chat with a handle, every row links to `https://t.me/<handle>/<post id>` |
| AccountCatalog.PrivateLinks | main.py:226-228 | through `LinkPrefix` and `MessageLink`: in a chat without a handle, every row links to `https://t.me/c/<id>/<post id>`, where `<id>` is the printed chat id without its leading `-100` when it has one and the printed id unchanged otherwise (so `c/-5` for id -5); a chat id that is not negative appears as printed |
| AccountCatalog.MarkedPrivateLinks | main.py:226-228 | in a chat without a handle whose id prints as `-100` followed by a chat number (the form `InviteLink.FullChatIdPrints` gives), every row links to `https://t.me/c/<chat number>/<post id>` |
| BotCatalog.CollectCatalog | bot_videos.py:86-110 | the script's pass, including its `continue` for chats without a handle, produces exactly the functional catalog |
| BotCatalog.CatalogMembership | bot_videos.py:91-110 | with `Qualifies` (the duration test of lines 94-99) and `Kept` (plus the handle test of lines 102-107): a row is in the catalog exactly when some post has a video of 600 to 7200 seconds in a chat with a handle and produces it |
| BotCatalog.CatalogRows | bot_videos.py:94-109 | every row comes from a post with a duration in `[600, 7200]`, both bounds included, in a chat with a non-empty handle; it links to `https://t.me/<handle>/<post id>` and has a non-empty caption; there are no more rows than posts |
| BotCatalog.PrivateChatGivesNothing | bot_videos.py:102-107 | posts from chats without a handle are skipped without a row and without an error |
| BotCatalog.CatalogNewestFirst | bot_videos.py:91-110 | the rows keep the iteration order: a newest-first history gives newest-first rows |
| BotCatalog.DemoHistory | bot_videos.py:91-110 | posts 12, 11 and 10 of `demo` with videos of 1200, 50 and 700 seconds give the rows for `https://t.me/demo/12` and `https://t.me/demo/10`, in that order |
| AccountPage.ThumbnailTag | main.py:184 | the card has an image tag exactly when the thumbnail is non-empty, and that tag embeds the thumbnail as a JPEG data URL |
| AccountPage.RenderBody | main.py:176-197 | the generator's branch gives the placeholder exactly when there are no entries; otherwise, for every k, the grid container holds the cards of the entries before k, then the card of entry k, then the cards after it |
| AccountPage.RenderPage | main.py:109-205 | the page is head, placeholder, foot exactly when there are no entries; otherwise, for every k, it is the head, the grid with the card of entry k between the earlier and later cards, and the foot |
| AccountPage.PageEmpty | main.py:176-197 | the placeholder paragraph appears exactly when there are no entries; otherwise the grid holds the cards and nothing else |
| AccountPage.CardOrder | main.py:179-197 | inside the grid container, the k-th card is the card of the k-th entry, after the cards before it and before the cards after it |
| AccountPage.CardContent | main.py:181-196 | a card's caption has no angle brackets and unescapes to the entry's caption; the card has an image exactly when the thumbnail is non-empty |
| AccountPage.PlaceholderIffNoVideo | main.py:176-177 | the page of a history shows the placeholder exactly when no post of the history has a video |
| BotPage.RenderPage | bot_videos.py:27-71 | the page is head, placeholder, foot exactly when there are no entries; otherwise, for every k, it is the head, the cards with the card of entry k between the earlier and later cards, and the foot |
| BotPage.PageEmpty | bot_videos.py:53-63 | the placeholder paragraph appears exactly when there are no entries; otherwise the page holds the cards and nothing else |
| BotPage.CardOrder | bot_videos.py:55-63 | with no wrapper around them, the k-th card is the card of the k-th entry, after the cards before it and before the cards after it |
| BotPage.CardContent | bot_videos.py:57-63 | a card's caption has no angle brackets and unescapes to the entry's caption |
| BotPage.PlaceholderIffNothingKept | bot_videos.py:53-54 | the page of a history shows the placeholder exactly when no post has a video of 600 to 7200 seconds in a chat with a handle |

## Left out

- The Telethon client (`start`, `get_entity`, `iter_messages`, `download_media`, `CheckChatInviteRequest`) is an external service. Its results are inputs: the history, the chat entity and the `fetch` function.
- The 10000-message bound of both scripts is passed to `iter_messages`, so it is a property of the client's output. The model takes whatever history the client returns.
- Environment and `.env` loading, credential checks and the `int(API_ID_STR)` validation are configuration, not catalog logic.
- Writing `index.html` and all printed progress and error messages are I/O.
- asyncio, the session lifecycle and `disconnect` are concurrency plumbing.
- Base64 encoding is a library call. It is folded into `fetch`, whose result is the encoded text.
- The Telethon error types near the end of `main.py` only select a printed message.
- The CSS and markup of the page heads and feet are constant strings. Only their position in the page is modelled.
- The entity lookup that fails and ends the run early has no effect on the page. It is not modelled.
- Text.ParseInt: models Python's `int()` only for an optional minus sign followed by ASCII digits. That is all the first script ever parses. Whitespace, underscores, a plus sign and non-ASCII digits are not modelled.
- BotCatalog.Qualifies: `hasattr(message.video, 'duration')` is modelled as an optional duration, a real number of seconds, so fractional durations such as 7200.5 are compared exactly. A duration that is present but not a number is outside the model.
- AccountCatalog.LinkPrefix: `Entity.username` is an `Option`, so a missing attribute and a `None` handle look the same. main.py:223 reads `entity.username` with no `hasattr` guard and outside any `try`. An entity object without that attribute, such as a basic group, raises `AttributeError` there: the run stops and writes no page. The model instead treats such a chat as having no handle and gives it `c/<id>` links. That crash path is not modelled. The bot script guards the attribute (bot_videos.py:102), and the model's `None` matches its behaviour.
- AccountCatalog.Thumbnail: a failed download is `None` from `fetch`. Which exceptions can occur, and whether a download succeeds, are the client's concern.
- After line 80 the first script only prints the chat's title and full id. It maps the invite errors of the client to printed messages. A failed `int()` on a negative chat id is `None` in `InviteLink.FullChatId`; the script catches it with its generic handler and prints it, which is I/O.
