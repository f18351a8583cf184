/** The exchange of a 720p/480p link, worked through the model. */
module Example {
  import opened Wrappers
  import opened Entries
  import Decimal
  import Dedup
  import HeightSort
  import Discovery
  import Text
  import opened Bot

  const F720 := FormatRecord(Some("avc1"), Some(720), Some("f1"), Some(50_000_000), None, None, Some("mp4"))
  const F480 := FormatRecord(Some("avc1"), Some(480), Some("f2"), None, Some(20_000_000), None, Some("mp4"))
  const AUDIO := FormatRecord(Some("none"), None, Some("a1"), Some(3_000_000), None, Some("medium"), Some("m4a"))
  const E720 := Entry(Some("720p"), Some("f1"), Some(50_000_000), 720)
  const E480 := Entry(Some("480p"), Some("f2"), Some(20_000_000), 480)

  lemma ExampleEntries()
    ensures ToEntry(F720) == E720 && ToEntry(F480) == E480
  {
    assert Decimal.Show(72) == "72";
    assert Decimal.Show(720) == "720";
    assert Decimal.Show(48) == "48";
    assert Decimal.Show(480) == "480";
    assert HeightLabel(720) == "720p" && HeightLabel(480) == "480p";
  }

  lemma ExampleExtract()
    ensures Extract([AUDIO, F480, F720]) == [E480, E720]
  {
    ExampleEntries();
    var fs := [AUDIO, F480, F720];
    assert fs[..2] == [AUDIO, F480] && fs[..2][..1] == [AUDIO] && [AUDIO][..0] == [];
    assert Extract([AUDIO]) == [];
    assert Extract([AUDIO, F480]) == [E480];
  }

  lemma ExampleDeduplicate()
    ensures Dedup.Deduplicate([E480, E720]) == [E480, E720]
  {
    var es := [E480, E720];
    assert es[..1] == [E480] && [E480][..0] == [];
    assert Dedup.Find([], E480.lbl) == 0;
    assert Dedup.Deduplicate([E480]) == [E480];
    assert Dedup.Find([E480], E720.lbl) == 1;
  }

  lemma ExampleSort()
    ensures HeightSort.SortDesc([E480, E720]) == [E720, E480]
  {
    var es := [E480, E720];
    assert es[..1] == [E480] && [E480][..0] == [];
    assert HeightSort.SortDesc([E480]) == [E480];
    assert HeightSort.InsertPos([E480], E720) == 0;
  }

  /** The audio stream is dropped and the two video streams come out highest first. */
  lemma ExampleFormats()
    ensures Discovery.ListFormatsSpec(Some(Info(Some([AUDIO, F480, F720])))) == [E720, E480]
  {
    ExampleExtract();
    ExampleDeduplicate();
    ExampleSort();
  }

  /**
   * A link whose extraction yields the two formats above (as `ExampleFormats` shows for
   * `[AUDIO, F480, F720]`) is accepted, its session stored and two buttons offered, 720p first.
   */
  method ExampleLink(bot: BotState, extracted: Option<Info>)
    requires bot.Valid() && Discovery.ListFormatsSpec(extracted) == [E720, E480]
    modifies bot
  {
    var url := "http://v";
    Text.StripUnpadded(url);
    assert url[..4] == "http";
    assert !KeyboardFails([E720, E480]) by {
      assert Min(8, 2) == 2;
      assert !DisplayFails(E720) && !DisplayFails(E480);
    }
    var replies := bot.HandleLink(7, Some(url), extracted);
    assert bot.userState[7] == Session(url, [E720, E480]);
    assert |replies| == 2 && replies[1].Keyboard?;
    var buttons := replies[1].buttons;
    assert |buttons| == 2 && buttons[0] == ButtonOf(E720) && buttons[1] == ButtonOf(E480);
  }

  /** Choosing "f1" shows the 720p label; a 60 MiB file is sent. */
  method ExampleChoice(bot: BotState)
    requires bot.Valid() && 7 in bot.userState && bot.userState[7].formats == [E720, E480]
    modifies bot
  {
    assert FindId([E720, E480], "f1") == 0;
    var replies := bot.Button(7, "f1", true, ["video.mp4"], true, 60 * 1024 * 1024, true);
    assert replies == [Downloading("720p"), Done];
  }

  /** A file of exactly the ceiling is sent; one byte more is refused. */
  method ExampleCeiling(bot: BotState, uid: UserId)
    requires bot.Valid() && uid in bot.userState
    modifies bot
  {
    var replies := bot.Button(uid, "f", true, ["video.mp4"], true, MAX_UPLOAD_BYTES, true);
    assert replies[1] == Done;
    replies := bot.Button(uid, "f", true, ["video.mp4"], true, MAX_UPLOAD_BYTES + 1, true);
    assert replies[1] == TooLarge(MAX_UPLOAD_BYTES + 1);
  }
}
