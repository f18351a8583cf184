# Bongo Bot: a Dafny model of the format-listing and download handlers

Bongo Bot is a Telegram bot. A user sends it a video link. The bot asks the extractor (yt-dlp)
which formats the video has. It offers the best of them as a keyboard. When the user taps a
button, the bot downloads that format into a temporary directory. It then uploads the file if
it is no larger than 190 MiB, and removes the directory afterwards.

This project models the logic of `bongo_bot.py` and proves properties of it:

- **`list_formats`**, lines 32-65 (modules `Entries`, `Dedup`, `HeightSort`, `Discovery`). It
  drops the audio-only records and derives each record's label, size and height. It is a
  method with the same three steps as the source:
  - a filter loop;
  - a dictionary loop that keeps, per label, the highest entry and the first one on ties,
    with labels staying in the order they first appear, as a Python dict keeps them;
  - an in-place stable sort by height, highest first, on an `array`.

  Each step is proved against a reference function. The lemmas about those functions state
  what the result means:
  - every entry comes from a video record;
  - labels are unique, and every video record's label is present;
  - each label keeps its highest entry;
  - the list is sorted, entries without a height come last, and equal heights keep
    first-appearance order.
- **`handle_link`** and **`button`**, lines 96-178 (module `Bot`). They are methods of a class
  `BotState` whose field `userState` is the source's `user_state` dictionary. Ghost fields record
  the temporary directory, the downloads requested and the uploads attempted (an upload that
  fails is recorded too). The contracts state:
  - every reply sequence;
  - when the session is written, and that `button` never writes it;
  - the upload ceiling, whose boundary is inclusive;
  - that the temporary directory is removed on every path, provided the chat replies
    themselves do not raise (see "Left out").
- **Helpers**. The helpers are `Decimal`, which shows a height in decimal for `f"{height}p"`,
  and `Text`, which models `str.strip` with Python's whitespace set and `str.startswith`.
- **Worked example**. `Example` works one exchange through the model: an audio stream plus
  480p and 720p streams.

Python semantics made explicit in the model:
- `x or y` treats `None` and `0` as false.
- A label can be `None` when a record has neither a height, a note nor an extension.
- `f"{None}"` shows `None`.
- `display += ...` on a `None` label raises. The handler then stops after the "Fetching"
  message, with the session already stored.

Where the code and its comments disagree, the model follows the code:
- Line 113 says "top 6", but line 115 offers `formats[:8]`.
- Audio-only means exactly `vcodec == "none"` (line 48). A record with no `vcodec` key is
  kept as video.

## Model

| member | source | states |
|---|---|---|
| Decimal.Show | bongo_bot.py:54 | the decimal text of a height is non-empty and all digits, with no leading zero unless the height is 0 |
| Decimal.ParseShow | bongo_bot.py:54 | reading the decimal text of a height back gives the height: the round trip |
| Decimal.ShowInjective | bongo_bot.py:54 | two heights have the same decimal text exactly when they are equal |
| Text.Lead | bongo_bot.py:97 | the leading whitespace run: every character before it is whitespace, the next one is not |
| Text.TrimEnd | bongo_bot.py:97 | the result is a prefix that is empty or ends in a non-space character, and everything removed is whitespace |
| Text.Strip | bongo_bot.py:97 | `str.strip`: the result is the input minus its leading and trailing whitespace, and does not start or end with whitespace |
| Text.StripUnpadded | bongo_bot.py:97 | a text that neither starts nor ends with whitespace is unchanged by stripping |
| Text.StripIdempotent | bongo_bot.py:97 | stripping twice is stripping once |
| Text.StartsWith | bongo_bot.py:98 | reference for `str.startswith`: the prefix is no longer than the text and equals its first characters |
| Entries.IsAudioOnly | bongo_bot.py:47-49 | reference for the skip test: a record is audio-only exactly when its `vcodec` is the string "none" |
| Entries.HeightOf | bongo_bot.py:50 | `height or 0`: the height is 0 exactly when it is missing or 0, and otherwise the record's height |
| Entries.SizeOf | bongo_bot.py:53 | the size is `filesize` when it is present and non-zero, otherwise `filesize_approx` |
| Entries.LabelOf | bongo_bot.py:54 | reference for a record's label; what it means is stated by `LabelShowsHeight`, `HeightLabelsDistinguishHeights` and `LabelWithoutHeight` |
| Entries.HeightLabel | bongo_bot.py:54 | reference for the text `f"{h}p"`: the decimal text of the height followed by "p" |
| Entries.LabelShowsHeight | bongo_bot.py:50-54 | a record with a positive height is labelled by that height's digits, with no leading zero, followed by "p", and the digits read back as the height |
| Entries.HeightLabelsDistinguishHeights | bongo_bot.py:50-54 | two records with positive heights get the same label exactly when their heights are equal |
| Entries.LabelWithoutHeight | bongo_bot.py:50-54 | a record without a height is labelled by its non-empty `format_note`, else by its `ext` |
| Entries.ToEntry | bongo_bot.py:50-55 | reference for the tuple `(label, fmt_id, filesize, height)` appended for one record, built from `LabelOf`, the record's `format_id`, `SizeOf` and `HeightOf` |
| Entries.Extract | bongo_bot.py:45-55 | reference for the filter loop: at most one entry per record |
| Entries.ExtractOne | bongo_bot.py:46-55 | one record yields its entry, or nothing when it is audio-only |
| Entries.ExtractConcat | bongo_bot.py:46-55 | the filter works record by record in order: extracting `a + b` gives the entries of `a` followed by those of `b`; with `ExtractOne` this fixes the result completely, order included |
| Entries.ExtractSound | bongo_bot.py:45-55 | every extracted entry is the entry of some record that is not audio-only |
| Entries.ExtractComplete | bongo_bot.py:45-55 | every record that is not audio-only has its entry among the extracted ones |
| Dedup.Find | bongo_bot.py:60 | the first position holding a label, or the length when the label is absent |
| Dedup.Best | bongo_bot.py:57-61 | when the label occurs, the representative chosen for it is a position holding that label |
| Dedup.BestIsFirstHighest | bongo_bot.py:57-61 | the representative of a label has the greatest height among the entries of that label, and every earlier entry of that label is strictly lower, so the first one wins ties |
| Dedup.Step | bongo_bot.py:60-61 | reference for one iteration of the dictionary loop: insert a new label at the end, replace a strictly lower entry in place, otherwise keep; its meaning is stated by `DeduplicateSummarizes` |
| Dedup.Deduplicate | bongo_bot.py:58-62 | reference for `list(seen.values())` after the loop: no more entries than its input |
| Dedup.DeduplicateSummarizes | bongo_bot.py:57-62 | the dictionary's values have distinct labels, cover every label, hold each label's representative, and are in order of first appearance |
| Dedup.DeduplicateEntry | bongo_bot.py:57-62 | each deduplicated entry is the representative of its label |
| Dedup.DeduplicateDistinct | bongo_bot.py:58-62 | the dictionary's values have pairwise distinct labels |
| Dedup.DeduplicateCovers | bongo_bot.py:58-62 | every label met in the loop has an entry among the dictionary's values |
| HeightSort.SortDesc | bongo_bot.py:64 | reference for the stable sort, highest first: as long as its input; its meaning is stated by the `SortDesc…` lemmas below |
| HeightSort.InsertPos | bongo_bot.py:64 | the insertion point puts an entry after every entry at least as high and before every lower one |
| HeightSort.SortDescNonIncreasing | bongo_bot.py:64 | the sorted list is ordered by height, highest first |
| HeightSort.SortDescPermutes | bongo_bot.py:64 | the sorted list is a permutation of its input |
| HeightSort.SortDescStable | bongo_bot.py:64 | for every height, the entries of that height keep their relative order, as Python's stable sort keeps them with `reverse=True` |
| HeightSort.SortDescDistinct | bongo_bot.py:62-64 | sorting keeps labels distinct |
| HeightSort.SortDescMembers | bongo_bot.py:64 | an entry is in the sorted list exactly when it is in the input |
| HeightSort.SortDescKeepsOrder | bongo_bot.py:62-64 | entries of equal height stay in the order of their labels' first appearance |
| HeightSort.SortByHeightDesc | bongo_bot.py:64 | `uniq.sort(...)` in place: the array ends up holding the stable descending sort of its old contents |
| HeightSort.InsertLast | bongo_bot.py:64 | one insertion step: the prefix becomes the old prefix with the new entry inserted at its place, and the rest of the array is unchanged |
| Discovery.ListFormatsSpec | bongo_bot.py:32-65 | reference for what `list_formats` returns: filter, deduplication and sort of the extracted records, never more formats than records; its meaning is stated by the `ListFormats…` lemmas below |
| Discovery.FormatsOf | bongo_bot.py:46 | reference for `info.get("formats", [])`: the extracted records, or none when the key is missing |
| Discovery.Values | bongo_bot.py:62 | reference for `list(seen.values())`: the dictionary's values in the insertion order of their keys |
| Discovery.ListFormats | bongo_bot.py:32-65 | the three loops of `list_formats` compute the filter, the deduplication and the sort, and a failed extraction gives `[]` |
| Discovery.ListFormatsFailed | bongo_bot.py:38-43 | when extraction raises, no formats are listed |
| Discovery.ListFormatsSound | bongo_bot.py:46-55 | every listed format is the entry of a record that is not audio-only |
| Discovery.ListFormatsLabels | bongo_bot.py:57-62 | listed labels are pairwise distinct, and the label of every record that is not audio-only is listed |
| Discovery.ListFormatsKeepsHighest | bongo_bot.py:58-61 | each listed format is, among the extracted entries of its label, one of greatest height, and the first such on ties |
| Discovery.ListFormatsOrder | bongo_bot.py:58-64 | the list is sorted by height, highest first; formats without a height come last; equal heights keep the order in which their labels first appear |
| Bot.MessageUrl | bongo_bot.py:97 | reference for `(text or "").strip()`; a missing text reads as "" |
| Bot.IsLink | bongo_bot.py:98 | reference for the link test: the stripped text is non-empty and starts with "http" |
| Bot.FitsUpload | bongo_bot.py:161 | reference for the size ceiling: a file is sent when it is at most 190 MiB |
| Bot.IsTruthy | bongo_bot.py:117 | reference for `if sz:`: a size is truthy when present and non-zero |
| Bot.DisplayFails | bongo_bot.py:116-118 | reference for the raise of `display += ...`: the label is `None` and the size is truthy |
| Bot.ButtonOf | bongo_bot.py:115-119 | reference for the button built from one format: its label and size (the displayed text) and its `format_id` as callback data |
| Bot.BuildKeyboard | bongo_bot.py:113-121 | the keyboard has one button per format among the first eight, in order, button `i` carrying format `i`'s label, size and `format_id` as callback data; it fails exactly when one of those formats has no label but a truthy size |
| Bot.FindId | bongo_bot.py:136 | the position of the first format with the given id, or the length when there is none |
| Bot.ShowLabel | bongo_bot.py:137 | reference for how the f-string shows a label: the text itself, or "None" when it is `None` |
| Bot.Fetched | bongo_bot.py:146-154 | reference for the `downloaded` decision: the download succeeded, the directory listing is non-empty and its first file exists |
| Bot.LookupLabel | bongo_bot.py:136 | the label shown is that of the first format with the chosen id, and the id itself when no format has it |
| Bot.BotState.constructor | bongo_bot.py:91 | the bot starts with no sessions, no temporary directory, no downloads and no uploads |
| Bot.BotState.HandleLink | bongo_bot.py:96-122 | a stripped text that is empty or does not start with "http" is refused and leaves the state alone; no formats gives "not found" and leaves the state alone; otherwise the user's session becomes the link and its listed formats, and the keyboard for them is offered unless building it raises |
| Bot.BotState.Button | bongo_bot.py:124-178 | `user_state` is never changed; without a session the user is asked for a link and nothing is downloaded; otherwise one temporary directory is made and removed, the chosen format of the session's link is requested, the shown label is that of the first matching format, and the second reply is "download failed" exactly when no file turned up, "too large" exactly when the file exceeds 190 MiB, "done" or "send failed" otherwise, with an upload exactly in those last two cases |
| Example.ExampleFormats | bongo_bot.py:45-65 | for an audio stream, a 480p stream and a 720p stream, the listing is the 720p entry then the 480p entry |

## Left out

- The calls into yt-dlp are parameters. `extracted` is the result of `extract_info`, with `None` when it raises. `downloadOk` is what `download_with_ytdlp` returns. The downloader's options (lines 67-88) belong to yt-dlp and are not modelled.
- `info.get("formats", [])` is modelled as an optional sequence of records. An `info` that is itself `None`, or a `formats` value that is not a list, would raise in the source. The model has no such case.
- The file system is parameters: the directory listing, `os.path.exists` and `os.path.getsize`. The temporary directory is a ghost flag plus a counter, and its name is not modelled.
- The Telegram transport is reduced to the sequence of replies each handler sends or edits. That covers the `start` and `status` handlers with their fixed texts, handler registration, polling, `query.answer()` and the message wording.
- Bot.BuildKeyboard: a button carries the label and the size. The display text `label (X.YMB)`, with its floating-point `round(sz/1024/1024, 1)`, is not built.
- Bot.BotState.Button: the "too large" reply carries the size in bytes, not the rounded number of MB the source prints.
- Bot.BotState.Button: the source's dictionary lookup `user_state.get(uid)` is modelled as map membership, since a stored session is never empty.
- Telegram rejecting a button whose text or callback data is `None` happens inside the chat library. It is not modelled.
- Bot.BotState.HandleLink: the chat replies are assumed not to raise. In the source, a failing "Fetching" reply (line 103) stops `handle_link` before line 111, so no session is stored, whereas the model always stores it once formats are found; a failing refusal (line 99) or "not found" edit (line 107) only ends the handler as the model does.
- Bot.BotState.Button: the chat replies are assumed not to raise. In the source, the "download failed" reply (lines 155-156) and the "too large" reply (lines 162-166) come before `shutil.rmtree` with no `finally`, so a reply that fails (a network error, a user who blocked the bot) would leave the temporary directory, and on the second path a file over 190 MiB, behind. Only the upload path (lines 170-178) removes the directory whatever happens. The model's promise that no temporary directory outlives a handler holds only under this assumption.
- Concurrency: handlers run one at a time here. Two overlapping updates, for example two button presses by one user while a download runs, are not modelled.
- Heights, sizes and user ids are unbounded integers, with heights and sizes non-negative, as yt-dlp reports them. No integer width matters in the source.
- `BOT_TOKEN`, the exit when it is missing (lines 20-22), and logging are configuration and I/O. They are not modelled.
