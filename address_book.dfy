/** The address book: records keyed by contact name, kept in the order the
    names were first inserted (the order of a Python dict), with insertion,
    lookup, deletion and the upcoming-birthdays query. */
module AddressBooks {
  import opened Outcomes
  import opened Calendar
  import opened Fields
  import opened Records
  import opened Birthdays
  import Seqs

  class AddressBook {
    /** The records, by name. */
    var data: map<string, Record>
    /** The names in insertion order. */
    var order: seq<string>

    /** Every record is filed under its own name, and `order` lists each name
        of `data` exactly once. */
    ghost predicate Valid()
      reads this
    {
      Seqs.Distinct(order)
      && (forall name :: name in data <==> name in order)
      && (forall name | name in data :: data[name].name == name)
    }

    /** The book as a value: what each name's record holds. */
    ghost function Contents(): map<string, Contact>
      reads this, data.Values
    {
      map name | name in data :: data[name].Value()
    }

    constructor ()
      ensures Valid() && data == map[] && order == []
    {
      data := map[];
      order := [];
    }

    /** Files `record` under its name, replacing a record of the same name
        (which keeps its place in the order); a new name goes last. */
    method AddRecord(record: Record)
      requires Valid()
      modifies this
      ensures Valid()
      ensures data == old(data)[record.name := record]
      ensures order == if record.name in old(data) then old(order) else old(order) + [record.name]
      ensures record.name !in old(data) ==> Contents() == old(Contents())[record.name := record.Value()]
    {
      if record.name !in data {
        order := order + [record.name];
      }
      data := data[record.name := record];
    }

    /** The record filed under `name`, or none. */
    method Find(name: string) returns (r: Record?)
      requires Valid()
      ensures r != null <==> name in data
      ensures r != null ==> r == data[name] && r.name == name
    {
      r := if name in data then data[name] else null;
    }

    /** Removes the record filed under `name`; every other record stays,
        in the same order.  A missing name changes nothing and is the
        "Contact not found." key error. */
    method Delete(name: string) returns (r: Result<()>)
      requires Valid()
      modifies this
      ensures Valid()
      ensures r.Ok? <==> name in old(data)
      ensures r.Ok? ==> data == old(data) - {name} && order == Seqs.Without(old(order), name)
      ensures r.Ok? ==> Contents() == old(Contents()) - {name}
      ensures r.Err? ==> r == Err(KeyError(ContactNotFoundMsg)) && data == old(data) && order == old(order)
    {
      if name in data {
        Seqs.WithoutDistinct(order, name);
        data := data - {name};
        order := Seqs.Without(order, name);
        r := Ok(());
      } else {
        r := Err(KeyError(ContactNotFoundMsg));
      }
    }

    /** The records in order, as the birthday query sees them. */
    function Entries(): (es: seq<Entry>)
      requires Valid()
      reads this, data.Values
      ensures |es| == |order|
      ensures forall i :: 0 <= i < |es| ==> es[i].name == order[i]
    {
      assert forall i :: 0 <= i < |order| ==> order[i] in data;
      seq(|order|, i requires 0 <= i < |order| && order[i] in data reads this, data.Values =>
        Entry(order[i], data[order[i]].birthday))
    }

    /** `get_upcoming_birthdays(days)` with `today` given: goes through the
        records in order, appending a greeting for each one whose birthday
        is due within `days` days and stopping at the first error. */
    method GetUpcomingBirthdays(today: Date, days: int := 7) returns (r: Result<seq<Greeting>>)
      requires Valid() && ValidDate(today)
      ensures r == Upcoming(Entries(), today, days)
    {
      ghost var es := Entries();
      ghost var rs := PerEntry(es, today, days);
      var upcoming: seq<Greeting> := [];
      var i := 0;
      while i < |order|
        invariant i <= |order|
        invariant Seqs.Collect(rs[..i]) == Ok(upcoming)
      {
        var record := data[order[i]];
        assert rs[..i + 1][..i] == rs[..i];
        assert rs[i] == Greet(Entry(order[i], record.birthday), today, days);
        match Greet(Entry(order[i], record.birthday), today, days) {
          case Err(e) =>
            assert Seqs.Collect(rs[..i + 1]) == Err(e);
            Seqs.CollectStopsAtError(rs, i + 1);
            return Err(e);
          case Ok(None) =>
          case Ok(Some(g)) =>
            upcoming := upcoming + [g];
        }
        i := i + 1;
      }
      assert rs[..i] == rs;
      r := Ok(upcoming);
    }
  }
}
