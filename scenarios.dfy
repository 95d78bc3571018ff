/** Concrete settings and replies, worked through the model. */
module Scenarios {
  import opened Wrappers
  import opened Text
  import opened RiskPolicy
  import opened ModerationClient
  import opened Orchestrator
  import opened FormEncoding
  import opened Signer

  /** The setting `"low, none"` holds `" none"`, not `"none"`: pieces
      are not trimmed. */
  lemma UntrimmedPieces()
    ensures AllowedLevels("low, none") == ["low", " none"]
  {
    assert "low, none" == "low" + [','] + " none";
    TwoLevelSetting("low", " none");
  }

  /** So under `"low, none"` the level `none`, being clear and unlisted,
      is rejected. */
  lemma UntrimmedPieceDoesNotMatch()
    ensures !Decide(Some("none"), AllowedLevels("low, none"))
  {
    UntrimmedPieces();
    assert "none" !in ["low", " none"] by {
      assert "none"[0] != "low"[0] && "none"[0] != " none"[0];
    }
    assert !IsBlank("none") by { assert !IsSpace("none"[0]); }
  }

  /** The allow-list `"low,none"`. */
  lemma LowNoneLevels()
    ensures AllowedLevels("low,none") == ["low", "none"]
  {
    assert "low,none" == "low" + [','] + "none";
    TwoLevelSetting("low", "none");
  }

  /** A 2xx reply carrying `level`. */
  function Classified(level: string): Reply {
    Response(200, Parsed(Level(level)))
  }

  /** One image whose reply is `reply`, under `"low,none"`. */
  function OneImage(reply: Reply): bool {
    Analysis(Fragment([Some("/uploads/a.png")]), "https://forum.example", u => Verdict(reply, "low,none"))
  }

  /** The relative `src` is resolved against the base URL, and the outcome
      is the client's verdict on that one image. */
  lemma OneImageIsVerdict(reply: Reply)
    ensures ImageUrls([Some("/uploads/a.png")], "https://forum.example") == ["https://forum.example" + "/uploads/a.png"]
    ensures OneImage(reply) <==> Verdict(reply, "low,none") == Approved(true)
  {
    assert !StartsWith("/uploads/a.png", "http") by { assert "/uploads/a.png"[0] != 'h'; }
    var srcs := [Some("/uploads/a.png")];
    assert Compact(srcs) == ["/uploads/a.png"] by { assert srcs[1..] == []; }
    var urls := ImageUrls(srcs, "https://forum.example");
    var rs := Results(urls, u => Verdict(reply, "low,none"));
    assert rs == [Verdict(reply, "low,none")];
    assert rs[1..] == [];
  }

  /** What `"low,none"` decides for a level. */
  lemma LowNoneDecides(level: string)
    ensures Verdict(Classified(level), "low,none") == Approved(Decide(Some(Downcase(level)), ["low", "none"]))
  {
    LowNoneLevels();
  }

  lemma HighIsClear()
    ensures Downcase("high") == "high" && !IsBlank("high")
  {
    DowncaseOfLower("high");
    assert !IsSpace("high"[0]);
  }

  lemma HighIsUnlisted()
    ensures "high" !in ["low", "none"]
  {
    assert "high"[0] != 'l' && "high"[0] != 'n';
  }

  lemma HighVerdict()
    ensures Verdict(Classified("high"), "low,none") == Approved(false)
  {
    LowNoneDecides("high");
    HighIsClear();
    HighIsUnlisted();
  }

  /** One image classified `high` under `"low,none"`: rejected. */
  lemma HighIsRejected()
    ensures !OneImage(Classified("high"))
  {
    OneImageIsVerdict(Classified("high"));
    HighVerdict();
  }

  lemma LowDowncased()
    ensures Downcase("LOW") == "low"
  {
    var d := Downcase("LOW");
    assert d[0] == 'l' && d[1] == 'o' && d[2] == 'w';
  }

  lemma LowVerdict()
    ensures Verdict(Classified("LOW"), "low,none") == Approved(true)
  {
    LowNoneDecides("LOW");
    LowDowncased();
    assert "low" in ["low", "none"];
  }

  /** One image classified `LOW` under `"low,none"`: approved, the match
      ignoring case. */
  lemma LowIsApproved()
    ensures OneImage(Classified("LOW"))
  {
    OneImageIsVerdict(Classified("LOW"));
    LowVerdict();
  }

  /** One image whose call times out: approved (fail-open). */
  lemma TimeoutFailsOpen()
    ensures OneImage(Thrown)
  {
    OneImageIsVerdict(Thrown);
  }

  /** One image whose call answers with status 503: rejected, since
      `approved` stays nil. */
  lemma ServiceErrorRejects()
    ensures !OneImage(Response(503, Parsed(Absent)))
  {
    OneImageIsVerdict(Response(503, Parsed(Absent)));
  }

  lemma AbsentVerdict()
    ensures Verdict(Response(200, Parsed(Absent)), "low,none") == Approved(true)
  {
    LowNoneLevels();
    HighIsUnlisted();
    MediumIsUnlisted();
  }

  lemma MediumIsUnlisted()
    ensures "medium" !in ["low", "none"]
  {
    assert "medium"[0] != 'l' && "medium"[0] != 'n';
  }

  /** One image with no level under `"low,none"`: approved, since that
      list tolerates neither `medium` nor `high`. */
  lemma UnknownLevelApproved()
    ensures OneImage(Response(200, Parsed(Absent)))
  {
    OneImageIsVerdict(Response(200, Parsed(Absent)));
    AbsentVerdict();
  }

  /** Under `"low,medium"` no level at all is rejected. */
  lemma UnknownLevelRejected()
    ensures !Decide(None, AllowedLevels("low,medium"))
  {
    assert "low,medium" == "low" + [','] + "medium";
    TwoLevelSetting("low", "medium");
  }

  /** Content without images, or whose images have no `src`: approved
      without any call. */
  lemma NoImagesApproved(check: string -> CheckResult)
    ensures Analysis(Fragment([]), "https://forum.example", check)
    ensures Analysis(Fragment([None, None]), "https://forum.example", check)
  {
    var srcs: seq<Option<string>> := [None, None];
    CompactEmpty(srcs);
    assert Compact(srcs) == [];
  }

  lemma TwoAbsoluteUrls(one: string, two: string, baseUrl: string)
    requires StartsWith(one, "http") && StartsWith(two, "http")
    ensures ImageUrls([Some(one), Some(two)], baseUrl) == [one, two]
  {
    var srcs := [Some(one), Some(two)];
    assert srcs[1..] == [Some(two)] && srcs[1..][1..] == [];
    assert Compact(srcs) == [one, two];
  }

  /** Two images, the first approved and the second rejected: rejected,
      after both were checked. */
  lemma SecondImageRejects(check: string -> CheckResult)
    requires check("https://cdn.example/1.png") == Approved(true)
    requires check("https://cdn.example/2.png") == Approved(false)
    ensures var rs := Results(["https://cdn.example/1.png", "https://cdn.example/2.png"], check);
            !Aggregate(rs) && Checked(rs) == 2
    ensures !Analysis(Fragment([Some("https://cdn.example/1.png"), Some("https://cdn.example/2.png")]), "https://forum.example", check)
  {
    var one, two := "https://cdn.example/1.png", "https://cdn.example/2.png";
    assert StartsWith(one, "http") && StartsWith(two, "http");
    TwoAbsoluteUrls(one, two, "https://forum.example");
    var rs := Results([one, two], check);
    assert rs == [Approved(true), Approved(false)];
    assert rs[1..] == [Approved(false)];
  }

  /** A literal `+` (as in an image URL) reaches the canonical string as
      `%2B`, and a space as `%20`: `"+ "` becomes `"%2B%20"`. */
  lemma PlusAndSpaceEncoding()
    ensures Escape([PLUS, SPACE]) == [PERCENT, 50, 66, PLUS]
    ensures ReplacePlus(Escape([PLUS, SPACE])) == [PERCENT, 50, 66, PERCENT, 50, 48]
  {
    assert Escape([SPACE]) == [PLUS] + Escape([]);
    assert Escape([PLUS, SPACE]) == Percent(PLUS) + Escape([SPACE]);
    ReplacePlusEscape([PLUS, SPACE]);
    assert PctEncode([SPACE]) == Percent(SPACE) + PctEncode([]);
    assert PctEncode([PLUS, SPACE]) == Percent(PLUS) + PctEncode([SPACE]);
  }
}
