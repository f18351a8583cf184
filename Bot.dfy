/**
 * The chat handlers of bongo_bot.py: `handle_link` (lines 96-122), which stores a session in
 * `user_state` and offers a keyboard, and `button` (lines 124-178), which downloads the chosen
 * format, checks its size, uploads it and removes the temporary directory. Whatever the extractor,
 * the downloader, the file system and the chat transport report comes in as a parameter.
 */
module Bot {
  import opened Wrappers
  import opened Entries
  import Text
  import Discovery

  /** The largest file the bot sends: 190 MiB (bongo_bot.py, line 25). */
  const MAX_UPLOAD_BYTES: nat := 190 * 1024 * 1024

  type UserId = int

  /** The value `{"url": ..., "formats": [...]}` that `user_state` holds per user. */
  datatype Session = Session(url: string, formats: seq<Entry>)

  /** One keyboard button: the label and size it displays, and the callback data it carries. */
  datatype KeyboardButton = KeyboardButton(lbl: Label, size: Option<nat>, callbackData: Option<string>)

  /** The messages the handlers send or edit, in order. */
  datatype Reply =
    | InvalidLink
    | Fetching
    | NotFound
    | Keyboard(buttons: seq<KeyboardButton>)
    | NeedLink
    | Downloading(shown: string)
    | DownloadFailed
    | TooLarge(size: nat)
    | Done
    | SendFailed

  /** A request made to the downloader. */
  datatype DownloadRequest = DownloadRequest(url: string, formatId: string)

  /** `(update.message.text or "").strip()`. */
  function MessageUrl(text: Option<string>): string
  {
    Text.Strip(text.GetOr(""))
  }

  /** The check of line 98: a non-empty text starting with "http". */
  predicate IsLink(url: string)
  {
    url != "" && Text.StartsWith(url, "http")
  }

  /** Python truthiness of an optional size: None and 0 are false. */
  predicate IsTruthy(size: Option<nat>)
  {
    size.Some? && size.value != 0
  }

  /**
   * Building a button's text fails for an entry without a label whose size is truthy:
   * `display += ...` on None raises, and the handler stops there.
   */
  predicate DisplayFails(e: Entry)
  {
    e.lbl.None? && IsTruthy(e.size)
  }

  function Min(a: int, b: int): int
  {
    if a <= b then a else b
  }

  function ButtonOf(e: Entry): KeyboardButton
  {
    KeyboardButton(e.lbl, e.size, e.formatId)
  }

  /**
   * `buttons` offers the first eight formats, in order. The first conjunct inside the quantifier
   * is the promise spelt out (button `i` answers with `formats[i].format_id`); the second adds
   * that it also shows that format's label and size.
   */
  ghost predicate IsKeyboardFor(buttons: seq<KeyboardButton>, formats: seq<Entry>)
  {
    |buttons| == Min(8, |formats|) &&
    forall i :: 0 <= i < |buttons| ==>
      buttons[i].callbackData == formats[i].formatId && buttons[i] == ButtonOf(formats[i])
  }

  /** Whether building the keyboard for `formats` raises. */
  ghost predicate KeyboardFails(formats: seq<Entry>)
  {
    exists i :: 0 <= i < Min(8, |formats|) && DisplayFails(formats[i])
  }

  /** The loop of lines 114-119; None when it raises. */
  method BuildKeyboard(formats: seq<Entry>) returns (kb: Option<seq<KeyboardButton>>)
    ensures kb.None? <==> KeyboardFails(formats)
    ensures kb.Some? ==> IsKeyboardFor(kb.value, formats)
  {
    var buttons: seq<KeyboardButton> := [];
    for i := 0 to Min(8, |formats|)
      invariant |buttons| == i
      invariant forall k :: 0 <= k < i ==> buttons[k] == ButtonOf(formats[k])
      invariant forall k :: 0 <= k < i ==> !DisplayFails(formats[k])
    {
      var e := formats[i];
      if DisplayFails(e) {
        return None;
      }
      buttons := buttons + [KeyboardButton(e.lbl, e.size, e.formatId)];
    }
    return Some(buttons);
  }

  /** The position of the first format whose id is `fid`, or `|formats|` when there is none. */
  function FindId(formats: seq<Entry>, fid: string): (k: nat)
    ensures k <= |formats|
    ensures k < |formats| ==> formats[k].formatId == Some(fid)
    ensures forall i :: 0 <= i < k ==> formats[i].formatId != Some(fid)
  {
    if formats == [] then 0
    else if formats[0].formatId == Some(fid) then 0
    else 1 + FindId(formats[1..], fid)
  }

  /** How an f-string shows a label: `str(None)` is "None". */
  function ShowLabel(l: Label): string
  {
    l.GetOr("None")
  }

  /** `next((lbl for lbl, f, s, h in formats if f == fid), fid)`. */
  function LookupLabel(formats: seq<Entry>, fid: string): (shown: string)
    ensures (forall i :: 0 <= i < |formats| ==> formats[i].formatId != Some(fid)) ==> shown == fid
    ensures forall k :: 0 <= k < |formats| && formats[k].formatId == Some(fid)
                && (forall i :: 0 <= i < k ==> formats[i].formatId != Some(fid))
                ==> shown == ShowLabel(formats[k].lbl)
  {
    var k := FindId(formats, fid);
    if k < |formats| then ShowLabel(formats[k].lbl) else fid
  }

  /** Whether the download produced a file the bot can find: `ok`, a non-empty listing, and it exists. */
  predicate Fetched(downloadOk: bool, listing: seq<string>, fileExists: bool)
  {
    downloadOk && |listing| > 0 && fileExists
  }

  /** The size check of line 161: a file of exactly the ceiling is still sent. */
  predicate FitsUpload(size: nat)
  {
    size <= MAX_UPLOAD_BYTES
  }

  /**
   * The bot's state: `user_state`, and ghost records of the temporary directory and of the
   * downloads and uploads the handlers start.
   */
  class BotState {
    var userState: map<UserId, Session>
    ghost var tempDirExists: bool
    ghost var tempDirsMade: nat
    ghost var downloads: seq<DownloadRequest>
    ghost var uploads: seq<string>

    /**
     * Between handlers no temporary directory is left, and every stored session has a link
     * and at least one format.
     */
    ghost predicate Valid()
      reads this
    {
      !tempDirExists &&
      forall u :: u in userState ==> IsLink(userState[u].url) && userState[u].formats != []
    }

    constructor ()
      ensures Valid()
      ensures userState == map[] && tempDirsMade == 0 && downloads == [] && uploads == []
    {
      userState := map[];
      tempDirExists := false;
      tempDirsMade := 0;
      downloads := [];
      uploads := [];
    }

    /**
     * `handle_link`: `extracted` is what the extractor returned for the link (None: it raised).
     * An invalid link or no formats leaves `user_state` alone; otherwise the user's session is
     * replaced and the keyboard offered.
     */
    method HandleLink(uid: UserId, text: Option<string>, extracted: Option<Info>)
      returns (replies: seq<Reply>)
      requires Valid()
      modifies this
      ensures Valid()
      ensures tempDirsMade == old(tempDirsMade) && downloads == old(downloads) && uploads == old(uploads)
      ensures var url, formats := MessageUrl(text), Discovery.ListFormatsSpec(extracted);
        && (!IsLink(url) ==> replies == [InvalidLink] && userState == old(userState))
        && (IsLink(url) && formats == [] ==> replies == [Fetching, NotFound] && userState == old(userState))
        && (IsLink(url) && formats != [] ==>
              && userState == old(userState)[uid := Session(url, formats)]
              && (KeyboardFails(formats) ==> replies == [Fetching])
              && (!KeyboardFails(formats) ==>
                    |replies| == 2 && replies[0] == Fetching && replies[1].Keyboard?
                    && IsKeyboardFor(replies[1].buttons, formats)))
    {
      var url := Text.Strip(text.GetOr(""));
      if url == "" || !Text.StartsWith(url, "http") {
        return [InvalidLink];
      }
      replies := [Fetching];
      var formats := Discovery.ListFormats(extracted);
      if formats == [] {
        return replies + [NotFound];
      }
      userState := userState[uid := Session(url, formats)];
      var kb := BuildKeyboard(formats);
      if kb.None? {
        return;
      }
      replies := replies + [Keyboard(kb.value)];
    }

    /**
     * `button`: `fid` is the callback data; `downloadOk`, `listing`, `fileExists`, `size` and
     * `uploadOk` are what the downloader, the directory listing, `os.path.exists`,
     * `os.path.getsize` and the upload report. `user_state` is only read.
     */
    method Button(uid: UserId, fid: string, downloadOk: bool, listing: seq<string>, fileExists: bool,
                  size: nat, uploadOk: bool)
      returns (replies: seq<Reply>)
      requires Valid()
      modifies this
      ensures Valid()
      ensures userState == old(userState)
      ensures uid !in userState ==>
        replies == [NeedLink] && tempDirsMade == old(tempDirsMade)
        && downloads == old(downloads) && uploads == old(uploads)
      ensures uid in userState ==>
        var s, fetched := userState[uid], Fetched(downloadOk, listing, fileExists);
        && tempDirsMade == old(tempDirsMade) + 1
        && downloads == old(downloads) + [DownloadRequest(s.url, fid)]
        && |replies| == 2 && replies[0] == Downloading(LookupLabel(s.formats, fid))
        && (replies[1] == DownloadFailed <==> !fetched)
        && (replies[1] == TooLarge(size) <==> fetched && !FitsUpload(size))
        && (replies[1] == Done <==> fetched && FitsUpload(size) && uploadOk)
        && (replies[1] == SendFailed <==> fetched && FitsUpload(size) && !uploadOk)
        && (fetched && FitsUpload(size) ==> uploads == old(uploads) + [listing[0]])
        && (!(fetched && FitsUpload(size)) ==> uploads == old(uploads))
    {
      if uid !in userState {
        return [NeedLink];
      }
      var state := userState[uid];
      var url := state.url;
      var shown := LookupLabel(state.formats, fid);
      replies := [Downloading(shown)];

      tempDirExists, tempDirsMade := true, tempDirsMade + 1;
      downloads := downloads + [DownloadRequest(url, fid)];
      var downloaded: Option<string> := None;
      if downloadOk {
        if |listing| > 0 {
          downloaded := Some(listing[0]);
        }
      }

      if downloaded.None? || !fileExists {
        replies := replies + [DownloadFailed];
        tempDirExists := false;
        return;
      }

      if size > MAX_UPLOAD_BYTES {
        replies := replies + [TooLarge(size)];
        tempDirExists := false;
        return;
      }

      uploads := uploads + [downloaded.value];
      if uploadOk {
        replies := replies + [Done];
      } else {
        replies := replies + [SendFailed];
      }
      tempDirExists := false;
    }
  }
}
