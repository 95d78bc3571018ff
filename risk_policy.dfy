/** The local accept/reject policy applied to the risk level the
    moderation service reports for one image. */
module RiskPolicy {
  import opened Wrappers
  import opened Text

  /** The allow-list setting, split on `,` and downcased piece by piece:
      no piece is trimmed, and trailing empty pieces are dropped. */
  function AllowedLevels(setting: string): (levels: seq<string>)
    ensures |levels| == |Split(setting, ',')|
    ensures forall i :: 0 <= i < |levels| ==> levels[i] == Downcase(Split(setting, ',')[i])
    ensures forall i :: 0 <= i < |levels| ==> IsLower(levels[i]) && ',' !in levels[i]
  {
    var pieces := Split(setting, ',');
    SplitIsFieldsPrefix(setting, ',');
    seq(|pieces|, i requires 0 <= i < |pieces| => Downcase(pieces[i]))
  }

  /** No level observed, or an observed level that is blank. */
  predicate Unclear(riskLevel: Option<string>) {
    riskLevel.None? || IsBlank(riskLevel.value)
  }

  /** The fallback for an unclear level: approve only when the allow-list
      tolerates neither `medium` nor `high`. */
  predicate DefaultDecision(allowed: seq<string>) {
    "medium" !in allowed && "high" !in allowed
  }

  /** The approval for an observed (already downcased) risk level. */
  function Decide(riskLevel: Option<string>, allowed: seq<string>): (approved: bool)
    // a listed level is approved
    ensures riskLevel.Some? && riskLevel.value in allowed ==> approved
    // a clear level that is not listed is rejected, whatever the fallback says
    ensures riskLevel.Some? && !IsBlank(riskLevel.value) && riskLevel.value !in allowed ==> !approved
    // an unclear level that is not listed gets the fallback
    ensures Unclear(riskLevel) && !(riskLevel.Some? && riskLevel.value in allowed) ==>
              (approved <==> DefaultDecision(allowed))
  {
    if riskLevel.Some? && riskLevel.value in allowed then true
    else if Unclear(riskLevel) then DefaultDecision(allowed)
    else false
  }

  /** The three rules together: approved exactly when the level is listed,
      or it is unclear and the fallback approves. */
  lemma DecideCharacterized(riskLevel: Option<string>, allowed: seq<string>)
    ensures Decide(riskLevel, allowed) <==>
              (riskLevel.Some? && riskLevel.value in allowed) ||
              (Unclear(riskLevel) && DefaultDecision(allowed))
  {
  }

  /** An empty allow-list approves exactly the unclear levels. */
  lemma EmptyAllowList(riskLevel: Option<string>)
    ensures AllowedLevels("") == []
    ensures AllowedLevels(",,") == []
    ensures Decide(riskLevel, []) == Unclear(riskLevel)
  {
    assert Fields("", ',') == [""];
    assert Fields(",", ',') == [""] + Fields("", ',');
    assert Fields(",,", ',') == [""] + Fields(",", ',');
  }

  /** A non-empty piece of the setting, in any case, approves that level in
      any case: matching is case-insensitive on both sides. */
  lemma {:induction false} ListedPieceApproves(setting: string, piece: string, level: string)
    requires piece in Fields(setting, ',') && piece != ""
    requires Downcase(piece) == Downcase(level)
    ensures Decide(Some(Downcase(level)), AllowedLevels(setting))
  {
    SplitKeepsNonEmpty(setting, ',', piece);
    var pieces := Split(setting, ',');
    var i :| 0 <= i < |pieces| && pieces[i] == piece;
    assert AllowedLevels(setting)[i] == Downcase(level);
  }

  /** A level is in the parsed list only if some piece of the setting
      downcases to it; in particular pieces are not trimmed. */
  lemma ListedMeansSomePiece(setting: string, level: string)
    requires level in AllowedLevels(setting)
    ensures exists piece :: piece in Fields(setting, ',') && Downcase(piece) == level
  {
    var levels := AllowedLevels(setting);
    var i :| 0 <= i < |levels| && levels[i] == level;
    SplitIsFieldsPrefix(setting, ',');
    assert Split(setting, ',')[i] in Fields(setting, ',');
  }

  /** A setting of two lower-case pieces lists exactly those two levels. */
  lemma TwoLevelSetting(a: string, b: string)
    requires ',' !in a && ',' !in b && b != "" && IsLower(a) && IsLower(b)
    ensures AllowedLevels(a + [','] + b) == [a, b]
  {
    FieldsAtSep(a, ',', b);
    FieldsWithoutSep(b, ',');
    assert Split(a + [','] + b, ',') == [a, b];
    DowncaseOfLower(a);
    DowncaseOfLower(b);
    var levels := AllowedLevels(a + [','] + b);
    assert levels[0] == a && levels[1] == b;
  }
}
