/** The visibility policy of one account (internal/policy/policy.go). */
module Policy {
  import opened Text

  /** The metadata that authorisation looks at; addresses are already extracted. */
  datatype Participants = Participants(from: string, to: seq<string>, cc: seq<string>, bcc: seq<string>, labelIDs: seq<string>)

  /** `normalize` is `NormalizeAddress`, which rests on `net/mail`. */
  datatype Rules = Rules(owner: string, allowOwnerSent: bool, visibilityLabel: string, visibilityLabelID: string,
                         normalize: string -> string)
  {
    predicate HasVisibilityLabel(labelIDs: seq<string>) {
      !Blank(visibilityLabelID) && exists i :: 0 <= i < |labelIDs| && Trim(labelIDs[i]) == visibilityLabelID
    }

    predicate IsOwner(email: string) {
      owner != "" && normalize(email) == owner
    }

    predicate IsOwnerSent(parts: Participants) {
      allowOwnerSent &&
      (IsOwner(parts.from) || exists i :: 0 <= i < |parts.labelIDs| && EqualFold(Trim(parts.labelIDs[i]), "SENT"))
    }

    predicate AllowsMessage(parts: Participants) {
      HasVisibilityLabel(parts.labelIDs) || IsOwnerSent(parts)
    }
  }

  class Policy {
    const owner: string
    const allowOwnerSent: bool
    const visibilityLabel: string
    const normalize: string -> string
    var visibilityLabelID: string

    constructor (owner: string, allowOwnerSent: bool, visibilityLabel: string, normalize: string -> string)
      ensures Value() == Rules(owner, allowOwnerSent, visibilityLabel, "", normalize)
    {
      this.owner, this.allowOwnerSent, this.visibilityLabel, this.normalize := owner, allowOwnerSent, visibilityLabel, normalize;
      visibilityLabelID := "";
    }

    function Value(): Rules
      reads this
    {
      Rules(owner, allowOwnerSent, visibilityLabel, visibilityLabelID, normalize)
    }

    /** Looks the label's immutable id up by its normalised name. */
    method ResolveVisibilityLabel(nameToID: map<string, string>) returns (ok: bool)
      modifies this`visibilityLabelID
      ensures (ok, Value()) == Resolved(old(Value()), nameToID)
    {
      if Blank(visibilityLabel) {
        return true;
      }
      if !Blank(visibilityLabelID) {
        return true;
      }
      var name := Lower(Trim(visibilityLabel));
      if name !in nameToID || Blank(nameToID[name]) {
        return false;
      }
      visibilityLabelID := nameToID[name];
      return true;
    }

    method AllowsMessage(parts: Participants) returns (allowed: bool)
      ensures allowed == Value().AllowsMessage(parts)
    {
      if !Blank(visibilityLabelID) {
        for i := 0 to |parts.labelIDs|
          invariant forall j :: 0 <= j < i ==> Trim(parts.labelIDs[j]) != visibilityLabelID
        {
          if Trim(parts.labelIDs[i]) == visibilityLabelID {
            return true;
          }
        }
      }
      if !allowOwnerSent {
        return false;
      }
      if Value().IsOwner(parts.from) {
        return true;
      }
      for i := 0 to |parts.labelIDs|
        invariant forall j :: 0 <= j < i ==> !EqualFold(Trim(parts.labelIDs[j]), "SENT")
      {
        if EqualFold(Trim(parts.labelIDs[i]), "SENT") {
          return true;
        }
      }
      return false;
    }
  }

  /** The result of resolving the visibility label, and the rules after it. */
  function Resolved(r: Rules, nameToID: map<string, string>): (bool, Rules) {
    if Blank(r.visibilityLabel) || !Blank(r.visibilityLabelID) then (true, r)
    else
      var name := Lower(Trim(r.visibilityLabel));
      if name !in nameToID || Blank(nameToID[name]) then (false, r)
      else (true, r.(visibilityLabelID := nameToID[name]))
  }

  /** Resolving only makes messages visible, never hides one; a resolved label
      stays resolved, whatever the labels are later; and with neither a label nor
      owner-sent mail nothing is visible. */
  lemma ResolvingWidens(r: Rules, nameToID: map<string, string>, later: map<string, string>, parts: Participants)
    ensures r.AllowsMessage(parts) ==> Resolved(r, nameToID).1.AllowsMessage(parts)
    ensures Resolved(r, nameToID).0 ==> Resolved(Resolved(r, nameToID).1, later) == Resolved(r, nameToID)
    ensures !Resolved(r, nameToID).0 ==> Resolved(r, nameToID).1 == r
    ensures Blank(r.visibilityLabelID) && !r.allowOwnerSent ==> !r.AllowsMessage(parts)
  {
    hide Text.Trim, Lower;
  }

  /** The visibility rule over its fields: a message carries the label whose id the
      policy has, or owner-sent mail is allowed and it is from the owner or carries
      the SENT label in any letter case. */
  lemma AllowsExactly(r: Rules, parts: Participants)
    ensures (exists l :: l in parts.labelIDs && Trim(l) == r.visibilityLabelID) && Trim(r.visibilityLabelID) != "" ==>
              r.AllowsMessage(parts)
    ensures r.allowOwnerSent && r.owner != "" && r.normalize(parts.from) == r.owner ==> r.AllowsMessage(parts)
    ensures r.allowOwnerSent && (exists l :: l in parts.labelIDs && Lower(Trim(l)) == "sent") ==> r.AllowsMessage(parts)
    ensures r.AllowsMessage(parts) ==>
              || (Trim(r.visibilityLabelID) != "" && exists l :: l in parts.labelIDs && Trim(l) == r.visibilityLabelID)
              || (r.allowOwnerSent && r.owner != "" && r.normalize(parts.from) == r.owner)
              || (r.allowOwnerSent && exists l :: l in parts.labelIDs && Lower(Trim(l)) == "sent")
  {
    hide Text.Trim;
    assert Lower("SENT") == "sent";
  }

  /** A configured label is looked up by its trimmed lower-case name; with the id that
      Gmail gives for it, every message that carries this id is visible, and no other
      label is made visible by it. */
  lemma ResolvedByName(r: Rules, nameToID: map<string, string>, parts: Participants)
    requires Trim(r.visibilityLabel) != "" && Trim(r.visibilityLabelID) == ""
    ensures var name := Lower(Trim(r.visibilityLabel));
            var (ok, after) := Resolved(r, nameToID);
            && (ok <==> name in nameToID && Trim(nameToID[name]) != "")
            && (ok ==> after.visibilityLabelID == nameToID[name])
            && (ok && (exists l :: l in parts.labelIDs && Trim(l) == nameToID[name]) ==> after.AllowsMessage(parts))
            && (!r.allowOwnerSent && after.AllowsMessage(parts) ==>
                  ok && exists l :: l in parts.labelIDs && Trim(l) == nameToID[name])
  {
    hide Text.Trim;
    AllowsExactly(Resolved(r, nameToID).1, parts);
  }
}
