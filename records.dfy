/** One contact: a name, an ordered list of phone numbers (duplicates
    allowed) and an optional birthday.  Every phone operation acts on the
    first phone whose digit string equals the one given. */
module Records {
  import opened Outcomes
  import opened Fields
  import Seqs

  // ---------- the phone-list edits, on values ----------

  /** `add_phone`: the list with `raw` appended, when `raw` is a valid phone. */
  function PhonesAfterAdd(ps: seq<PhoneNumber>, raw: string): (r: Result<seq<PhoneNumber>>)
    ensures r.Ok? <==> IsPhoneText(raw)
    ensures r.Ok? ==> |r.value| == |ps| + 1 && r.value[..|ps|] == ps && r.value[|ps|] == raw
    ensures r.Err? ==> r.error == ValueError(PhoneFormatMsg)
  {
    match NewPhone(raw)
    case Err(e) => Err(e)
    case Ok(p) => Ok(ps + [p])
  }

  /** `remove_phone`: the list without its first phone equal to `raw`; the
      phones before it and after it keep their places and order. */
  function PhonesAfterRemove(ps: seq<PhoneNumber>, raw: string): (r: Result<seq<PhoneNumber>>)
    ensures r.Ok? <==> raw in ps
    ensures r.Ok? ==>
      var i := Seqs.IndexOf(ps, raw).value;
      |r.value| == |ps| - 1 && r.value[..i] == ps[..i] && r.value[i..] == ps[i + 1..]
      && multiset(r.value) + multiset{ps[i]} == multiset(ps)
    ensures r.Err? ==> r.error == ValueError(PhoneNotFoundMsg)
  {
    match Seqs.IndexOf(ps, raw)
    case None => Err(ValueError(PhoneNotFoundMsg))
    case Some(i) =>
      Seqs.RemoveAtKeepsOthers(ps, i);
      Ok(Seqs.RemoveAt(ps, i))
  }

  /** `edit_phone`: the list with its first phone equal to `oldRaw` replaced
      by `newRaw` at the same position.  A missing old phone is reported
      first; only then is the new phone validated. */
  function PhonesAfterEdit(ps: seq<PhoneNumber>, oldRaw: string, newRaw: string): (r: Result<seq<PhoneNumber>>)
    ensures r.Ok? <==> oldRaw in ps && IsPhoneText(newRaw)
    ensures r.Ok? ==>
      var i := Seqs.IndexOf(ps, oldRaw).value;
      |r.value| == |ps| && r.value[i] == newRaw
      && forall j :: 0 <= j < |ps| && j != i ==> r.value[j] == ps[j]
    ensures r.Err? ==> r.error == (if oldRaw in ps then ValueError(PhoneFormatMsg) else ValueError(OldPhoneNotFoundMsg))
  {
    match Seqs.IndexOf(ps, oldRaw)
    case None => Err(ValueError(OldPhoneNotFoundMsg))
    case Some(i) =>
      match NewPhone(newRaw)
      case Err(e) => Err(e)
      case Ok(p) => Ok(ps[i := p])
  }

  /** The phones a list holds after an edit: the new list on success, the
      old one on failure. */
  function PhonesAfter(before: seq<PhoneNumber>, r: Result<seq<PhoneNumber>>): seq<PhoneNumber> {
    if r.Ok? then r.value else before
  }

  /** What a record holds, as a value. */
  datatype Contact = Contact(phones: seq<PhoneNumber>, birthday: Option<BirthdayText>)

  class Record {
    const name: string
    var phones: seq<PhoneNumber>
    var birthday: Option<BirthdayText>

    constructor (name: string)
      ensures this.name == name && phones == [] && birthday == None
    {
      this.name := name;
      phones := [];
      birthday := None;
    }

    function Value(): Contact
      reads this
    {
      Contact(phones, birthday)
    }

    /** Appends the phone when it is valid; otherwise the list stays as it
        was and the validation error is returned. */
    method AddPhone(raw: string) returns (r: Result<()>)
      modifies this
      ensures r == Status(PhonesAfterAdd(old(phones), raw))
      ensures phones == PhonesAfter(old(phones), PhonesAfterAdd(old(phones), raw))
      ensures birthday == old(birthday)
    {
      match NewPhone(raw)
      case Err(e) =>
        r := Err(e);
      case Ok(p) =>
        phones := phones + [p];
        r := Ok(());
    }

    /** Removes the first phone equal to `raw`; without one, nothing changes
        and "Phone not found." is returned. */
    method RemovePhone(raw: string) returns (r: Result<()>)
      modifies this
      ensures r == Status(PhonesAfterRemove(old(phones), raw))
      ensures phones == PhonesAfter(old(phones), PhonesAfterRemove(old(phones), raw))
      ensures birthday == old(birthday)
    {
      var i := 0;
      while i < |phones|
        invariant i <= |phones| && phones == old(phones)
        invariant forall j :: 0 <= j < i ==> phones[j] != raw
      {
        if phones[i] == raw {
          phones := Seqs.RemoveAt(phones, i);
          return Ok(());
        }
        i := i + 1;
      }
      return Err(ValueError(PhoneNotFoundMsg));
    }

    /** Replaces the first phone equal to `oldRaw` by `newRaw`.  The new phone
        is validated before anything changes, so a missing old phone or an
        invalid new one leaves the list as it was. */
    method EditPhone(oldRaw: string, newRaw: string) returns (r: Result<()>)
      modifies this
      ensures r == Status(PhonesAfterEdit(old(phones), oldRaw, newRaw))
      ensures phones == PhonesAfter(old(phones), PhonesAfterEdit(old(phones), oldRaw, newRaw))
      ensures birthday == old(birthday)
    {
      var i := 0;
      while i < |phones|
        invariant i <= |phones| && phones == old(phones)
        invariant forall j :: 0 <= j < i ==> phones[j] != oldRaw
      {
        if phones[i] == oldRaw {
          match NewPhone(newRaw)
          case Err(e) =>
            return Err(e);
          case Ok(p) =>
            phones := phones[i := p];
            return Ok(());
        }
        i := i + 1;
      }
      return Err(ValueError(OldPhoneNotFoundMsg));
    }

    /** The first phone equal to `raw`, or none. */
    method FindPhone(raw: string) returns (r: Option<PhoneNumber>)
      ensures r.Some? <==> raw in phones
      ensures r.Some? ==> r.value == raw
    {
      for i := 0 to |phones|
        invariant forall j :: 0 <= j < i ==> phones[j] != raw
      {
        if phones[i] == raw {
          return Some(phones[i]);
        }
      }
      return None;
    }

    /** Sets the birthday when `raw` is a valid date, replacing any earlier
        one; otherwise nothing changes and the validation error is
        returned. */
    method AddBirthday(raw: string) returns (r: Result<()>)
      modifies this
      ensures r == Status(NewBirthday(raw))
      ensures birthday == if r.Ok? then Some(raw) else old(birthday)
      ensures phones == old(phones)
    {
      match NewBirthday(raw)
      case Err(e) =>
        r := Err(e);
      case Ok(b) =>
        birthday := Some(b);
        r := Ok(());
    }

    /** The one-line summary of the contact shown by the "all" command. */
    function Describe(): string
      reads this
    {
      Summary(name, phones, birthday)
    }
  }

  /** `Record.__str__` on values: the name, the phones (or "No phones") and
      the birthday text (or "No birthday"), each after its label. */
  function Summary(name: string, ps: seq<PhoneNumber>, b: Option<BirthdayText>): string {
    NameLabel(name) + PhonesText(ps) + BirthdayLabel(b)
  }

  /** The name part of a summary, up to the phones. */
  function NameLabel(name: string): string {
    "Contact name: " + name + ", phones: "
  }

  /** The birthday part of a summary, after the phones. */
  function BirthdayLabel(b: Option<BirthdayText>): string {
    ", birthday: " + BirthdayShown(b)
  }

  /** The phones part of a summary. */
  function PhonesText(ps: seq<PhoneNumber>): string {
    if ps == [] then "No phones" else JoinPhones(ps)
  }

  /** The birthday part of a summary. */
  function BirthdayShown(b: Option<BirthdayText>): string {
    match b
    case None => "No birthday"
    case Some(t) => t
  }

  /** Two summaries of the same name and birthday that read the same show
      the same phones, in the same order: the summary loses nothing of the
      phone list. */
  lemma SummaryDeterminesPhones(name: string, ps: seq<PhoneNumber>, qs: seq<PhoneNumber>, b: Option<BirthdayText>)
    requires Summary(name, ps, b) == Summary(name, qs, b)
    ensures ps == qs
  {
    Seqs.MiddleOf(NameLabel(name), PhonesText(ps), PhonesText(qs), BirthdayLabel(b));
    PhonesTextInjective(ps, qs);
  }

  /** Different phone lists give different phones parts. */
  lemma PhonesTextInjective(a: seq<PhoneNumber>, b: seq<PhoneNumber>)
    requires PhonesText(a) == PhonesText(b)
    ensures a == b
  {
    if a != [] {
      JoinPhonesLayout(a);
    }
    if b != [] {
      JoinPhonesLayout(b);
    }
    if a != [] && b != [] {
      JoinPhonesInjective(a, b);
    }
  }

  /** The phone numbers joined by "; ". */
  function JoinPhones(ps: seq<PhoneNumber>): string
    requires ps != []
    decreases |ps|
  {
    if |ps| == 1 then ps[0] else ps[0] + "; " + JoinPhones(ps[1..])
  }

  /** In the joined list, phone `i` sits at offset 12 * i (ten digits plus
      the two-character separator per earlier phone), and the separators sit
      between consecutive phones. */
  lemma {:induction false} JoinPhonesLayout(ps: seq<PhoneNumber>)
    requires ps != []
    ensures |JoinPhones(ps)| == 12 * |ps| - 2
    ensures forall i :: 0 <= i < |ps| ==> JoinPhones(ps)[12 * i..12 * i + 10] == ps[i]
    ensures forall i :: 0 <= i < |ps| - 1 ==> JoinPhones(ps)[12 * i + 10..12 * i + 12] == "; "
    decreases |ps|
  {
    if |ps| > 1 {
      var tail := JoinPhones(ps[1..]);
      JoinPhonesLayout(ps[1..]);
      var s := JoinPhones(ps);
      assert s == ps[0] + "; " + tail;
      forall i | 0 <= i < |ps| ensures s[12 * i..12 * i + 10] == ps[i] {
        if i > 0 {
          assert s[12 * i..12 * i + 10] == tail[12 * (i - 1)..12 * (i - 1) + 10];
        }
      }
      forall i | 0 <= i < |ps| - 1 ensures s[12 * i + 10..12 * i + 12] == "; " {
        if i > 0 {
          assert s[12 * i + 10..12 * i + 12] == tail[12 * (i - 1) + 10..12 * (i - 1) + 12];
        }
      }
    }
  }

  /** The joined list determines the phones: two phone lists that print the
      same are the same list, order and duplicates included. */
  lemma JoinPhonesInjective(a: seq<PhoneNumber>, b: seq<PhoneNumber>)
    requires a != [] && b != []
    requires JoinPhones(a) == JoinPhones(b)
    ensures a == b
  {
    JoinPhonesLayout(a);
    JoinPhonesLayout(b);
    forall i | 0 <= i < |a| ensures a[i] == b[i] {
      assert a[i] == JoinPhones(a)[12 * i..12 * i + 10];
    }
  }
}
