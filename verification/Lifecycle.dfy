/** The anchor lifecycle (`mods/btc_anchor/lifecycle.py`). */
module Lifecycle {
  import opened Options
  import opened Hashing
  import opened Strings

  datatype Status = UNANCHORED | COMMITMENT_PENDING | BROADCAST | INCLUDED | CONFIRMED | REORGED | RE_ANCHOR_REQUIRED

  // ----- status names -----

  function Name(s: Status): Text {
    match s
    case UNANCHORED => "UNANCHORED"
    case COMMITMENT_PENDING => "COMMITMENT_PENDING"
    case BROADCAST => "BROADCAST"
    case INCLUDED => "INCLUDED"
    case CONFIRMED => "CONFIRMED"
    case REORGED => "REORGED"
    case RE_ANCHOR_REQUIRED => "RE_ANCHOR_REQUIRED"
  }

  function FromName(raw: Text): Option<Status> {
    if raw == "UNANCHORED" then Some(UNANCHORED)
    else if raw == "COMMITMENT_PENDING" then Some(COMMITMENT_PENDING)
    else if raw == "BROADCAST" then Some(BROADCAST)
    else if raw == "INCLUDED" then Some(INCLUDED)
    else if raw == "CONFIRMED" then Some(CONFIRMED)
    else if raw == "REORGED" then Some(REORGED)
    else if raw == "RE_ANCHOR_REQUIRED" then Some(RE_ANCHOR_REQUIRED)
    else None
  }

  /** Statuses of earlier versions. */
  function Legacy(raw: Text): Option<Status> {
    if raw == "recorded" || raw == "pending_broadcast" || raw == "mesh_record" then Some(COMMITMENT_PENDING)
    else if raw == "submitted" then Some(BROADCAST)
    else if raw == "confirmed" then Some(CONFIRMED)
    else if raw == "failed" then Some(RE_ANCHOR_REQUIRED)
    else None
  }

  /** `raw.upper().replace("-", "_").replace(" ", "_")`, per character. */
  function Canonical(c: char): char {
    if 'a' <= c <= 'z' then (c as int - 32) as char
    else if c == '-' || c == ' ' then '_'
    else c
  }

  function Canonicalised(s: Text): (t: Text)
    ensures |t| == |s|
  {
    seq(|s|, i requires 0 <= i < |s| => Canonical(s[i]))
  }

  /** `normalize_status`: unknown text counts as unanchored. */
  function NormalizeStatus(status: Option<Text>): Status {
    if status.None? || status.value == "" then UNANCHORED
    else
      var raw: Text := Strip(status.value);
      if FromName(raw).Some? then FromName(raw).value
      else if Legacy(Lower(raw)).Some? then Legacy(Lower(raw)).value
      else if FromName(Canonicalised(raw)).Some? then FromName(Canonicalised(raw)).value
      else UNANCHORED
  }

  lemma NameFound(s: Status)
    ensures FromName(Name(s)) == Some(s)
  {
  }

  lemma NameOf(raw: Text)
    requires FromName(raw).Some?
    ensures Name(FromName(raw).value) == raw
  {
  }

  /** Storing a status by name and reading it back changes nothing. */
  lemma NormalizeName(s: Status)
    ensures NormalizeStatus(Some(Name(s))) == s
  {
    NameFound(s);
    assert Strip(Name(s)) == Name(s);
  }

  lemma LegacyFacts(raw: Text, s: Status)
    requires Canonicalised(raw) == Name(s) && Legacy(Lower(raw)).Some?
    ensures Legacy(Lower(raw)) == Some(s)
  {
    assert |Lower(raw)| == |raw| == |Name(s)|;
    assert raw != "" && Lower(raw)[0] == LowerChar(raw[0]) && Name(s)[0] == Canonical(raw[0]);
  }

  lemma StripNothing()
    ensures Strip("") == "" && Legacy(Lower("")).None? && FromName(Canonicalised("")).None?
  {
    assert Lower("") == "" && Canonicalised("") == "";
  }

  lemma NameIsCanonical(s: Status)
    ensures Canonicalised(Name(s)) == Name(s)
  {
  }

  lemma FoundByName(raw: Text, s: Status)
    ensures FromName(raw) == Some(s) <==> raw == Name(s)
  {
    hide Name;
    NameFound(s);
    if FromName(raw) == Some(s) {
      NameOf(raw);
    }
  }

  lemma CanonicalOfName(raw: Text)
    requires FromName(raw).Some?
    ensures Canonicalised(raw) == raw
  {
    hide Canonicalised;
    NameOf(raw);
    NameIsCanonical(FromName(raw).value);
  }

  /** The text spells the name: in any case, and with '-' or ' ' for '_'. */
  predicate Spells(raw: string, name: string) {
    |raw| == |name| && forall i :: 0 <= i < |raw| ==>
      SameLetter(raw[i], name[i]) || (name[i] == '_' && (raw[i] == '-' || raw[i] == ' '))
  }

  lemma NamesAreCapitals(s: Status)
    ensures forall i :: 0 <= i < |Name(s)| ==> 'A' <= Name(s)[i] <= 'Z' || Name(s)[i] == '_'
  {
  }

  lemma SpellsExactlyWhen(raw: Text, s: Status)
    ensures Canonicalised(raw) == Name(s) <==> Spells(raw, Name(s))
  {
    NamesAreCapitals(s);
    hide Name;
    if Canonicalised(raw) == Name(s) {
      assert forall i :: 0 <= i < |raw| ==> Canonicalised(raw)[i] == Name(s)[i];
    }
  }

  /** The words for a status in earlier versions. */
  function Earlier(s: Status): set<string> {
    match s
    case COMMITMENT_PENDING => {"recorded", "pending_broadcast", "mesh_record"}
    case BROADCAST => {"submitted"}
    case CONFIRMED => {"confirmed"}
    case RE_ANCHOR_REQUIRED => {"failed"}
    case _ => {}
  }

  predicate SpellsEarlier(raw: string, s: Status) {
    exists w :: w in Earlier(s) && SameLetters(raw, w)
  }

  lemma EarlierIsLower(s: Status, w: string)
    requires w in Earlier(s)
    ensures forall i :: 0 <= i < |w| ==> w[i] as int < 128 && !('A' <= w[i] <= 'Z')
  {
  }

  lemma EarlierIsLegacy(s: Status, w: Text)
    requires w in Earlier(s)
    ensures Legacy(w) == Some(s)
  {
  }

  lemma LegacyIsEarlier(w: Text)
    requires Legacy(w).Some?
    ensures w in Earlier(Legacy(w).value)
  {
  }

  lemma EarlierExactlyWhen(raw: Text, s: Status)
    ensures Legacy(Lower(raw)) == Some(s) <==> SpellsEarlier(raw, s)
  {
    hide Legacy, Earlier, SameLetters, Lower;
    LowerHasNoCapitals(raw);
    if Legacy(Lower(raw)) == Some(s) {
      LegacyIsEarlier(Lower(raw));
      LowerOfLower(Lower(raw));
      LowerExactlyWhen(raw, Lower(raw));
    }
    forall w | w in Earlier(s) && SameLetters(raw, w)
      ensures Legacy(Lower(raw)) == Some(s)
    {
      EarlierIsLower(s, w);
      EarlierIsLegacy(s, w);
      LowerExactlyWhen(raw, w);
      LowerOfLower(w);
    }
  }

  /** The three look-ups never disagree: a text is read as a status exactly when
      it spells its name or an earlier word for it, blanks around it apart;
      whatever spells nothing counts as unanchored. */
  lemma NormalizeExactlyWhen(text: Text, s: Status)
    ensures var raw := Strip(text);
            NormalizeStatus(Some(text)) == s
            <==> || Spells(raw, Name(s)) || SpellsEarlier(raw, s)
                 || (s == UNANCHORED && forall z :: !Spells(raw, Name(z)) && !SpellsEarlier(raw, z))
  {
    hide Strip, Legacy, FromName, Canonicalised, Name, Lower, Spells, SpellsEarlier;
    var raw: Text := Strip(text);
    StripNothing();
    forall z: Status
      ensures FromName(Canonicalised(raw)) == Some(z) <==> Spells(raw, Name(z))
      ensures Legacy(Lower(raw)) == Some(z) <==> SpellsEarlier(raw, z)
    {
      FoundByName(Canonicalised(raw), z);
      SpellsExactlyWhen(raw, z);
      EarlierExactlyWhen(raw, z);
    }
    if FromName(raw).Some? {
      CanonicalOfName(raw);
    }
    if Legacy(Lower(raw)).Some? && FromName(Canonicalised(raw)).Some? {
      NameOf(Canonicalised(raw));
      LegacyFacts(raw, FromName(Canonicalised(raw)).value);
    }
    if FromName(Canonicalised(raw)).Some? {
      assert Spells(raw, Name(FromName(Canonicalised(raw)).value));
    }
    if Legacy(Lower(raw)).Some? {
      assert SpellsEarlier(raw, Legacy(Lower(raw)).value);
    }
  }

  /** Case, blanks around it, and '-' or ' ' for '_' do not matter. */
  lemma NormalizeStyle(text: Text, s: Status)
    requires Spells(Strip(text), Name(s))
    ensures NormalizeStatus(Some(text)) == s
  {
    hide NormalizeStatus, Spells;
    NormalizeExactlyWhen(text, s);
  }

  /** The words of earlier versions, in any case and with blanks around them. */
  lemma NormalizeLegacy(text: Text)
    ensures var word := Strip(text);
            var read := NormalizeStatus(Some(text));
            && ((SameLetters(word, "recorded") || SameLetters(word, "pending_broadcast")
                 || SameLetters(word, "mesh_record")) ==> read == COMMITMENT_PENDING)
            && (SameLetters(word, "submitted") ==> read == BROADCAST)
            && (SameLetters(word, "confirmed") ==> read == CONFIRMED)
            && (SameLetters(word, "failed") ==> read == RE_ANCHOR_REQUIRED)
  {
    hide Strip, SameLetters, NormalizeStatus, Spells;
    NormalizeExactlyWhen(text, COMMITMENT_PENDING);
    NormalizeExactlyWhen(text, BROADCAST);
    NormalizeExactlyWhen(text, CONFIRMED);
    NormalizeExactlyWhen(text, RE_ANCHOR_REQUIRED);
  }

  // ----- transitions -----

  function Successors(s: Status): set<Status> {
    match s
    case UNANCHORED => {COMMITMENT_PENDING, BROADCAST}
    case COMMITMENT_PENDING => {BROADCAST, INCLUDED, COMMITMENT_PENDING}
    case BROADCAST => {INCLUDED, BROADCAST, REORGED}
    case INCLUDED => {CONFIRMED, REORGED, INCLUDED}
    case CONFIRMED => {REORGED, CONFIRMED}
    case REORGED => {RE_ANCHOR_REQUIRED, REORGED}
    case RE_ANCHOR_REQUIRED => {COMMITMENT_PENDING, BROADCAST, INCLUDED, RE_ANCHOR_REQUIRED}
  }

  predicate CanTransition(src: Status, dst: Status) {
    src == dst || dst in Successors(src)
  }

  /** The table, pair by pair. */
  lemma TableIs(src: Status, dst: Status)
    ensures CanTransition(src, dst) <==>
              || src == dst
              || (src, dst) in {
                   (UNANCHORED, COMMITMENT_PENDING), (UNANCHORED, BROADCAST),
                   (COMMITMENT_PENDING, BROADCAST), (COMMITMENT_PENDING, INCLUDED),
                   (BROADCAST, INCLUDED), (BROADCAST, REORGED),
                   (INCLUDED, CONFIRMED), (INCLUDED, REORGED), (CONFIRMED, REORGED),
                   (REORGED, RE_ANCHOR_REQUIRED),
                   (RE_ANCHOR_REQUIRED, COMMITMENT_PENDING), (RE_ANCHOR_REQUIRED, BROADCAST),
                   (RE_ANCHOR_REQUIRED, INCLUDED)}
  {
  }

  /** `transition`; None when it raises ValueError. */
  function Transition(src: Status, dst: Status): (r: Option<Status>)
    ensures r.Some? <==> CanTransition(src, dst)
    ensures r.Some? ==> r.value == dst
  {
    if CanTransition(src, dst) then Some(dst) else None
  }

  ghost predicate LegalPath(path: seq<Status>) {
    forall i :: 0 < i < |path| ==> CanTransition(path[i - 1], path[i])
  }

  /** No legal sequence of transitions reaches CONFIRMED without having been
      INCLUDED before, unless it starts CONFIRMED. */
  lemma {:induction false} ConfirmedWasIncluded(path: seq<Status>)
    requires path != [] && LegalPath(path)
    requires path[0] != CONFIRMED && path[|path| - 1] == CONFIRMED
    ensures exists i :: 0 <= i < |path| - 1 && path[i] == INCLUDED
  {
    var n := |path| - 1;
    if path[n - 1] != INCLUDED {
      ConfirmedWasIncluded(path[..n]);
      var i :| 0 <= i < n - 1 && path[..n][i] == INCLUDED;
      assert path[i] == INCLUDED;
    }
  }

  /** `is_authoritative` */
  predicate Authoritative(status: Status, canonical: bool, confirmations: int, depth: int) {
    status == CONFIRMED && canonical && confirmations >= depth
  }
}
