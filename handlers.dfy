/** The command handlers that change the book: `add_contact` (add a phone,
    creating the contact when the name is new), `change_contact` (replace a
    phone) and `add_birthday`.  Each takes the command's arguments; too few
    arguments is the index error of reading a missing one, and the handler
    reply is the text shown to the user. */
module Handlers {
  import opened Outcomes
  import opened Fields
  import opened Records
  import opened AddressBooks

  const ContactAddedMsg := "Contact added."
  const ContactUpdatedMsg := "Contact updated."
  const PhoneChangedMsg := "Phone changed."
  const BirthdayAddedMsg := "Birthday added."

  /** What a handler leaves behind: the contacts of the book and its reply. */
  datatype Handled = Handled(contacts: map<string, Contact>, reply: Result<string>)

  /** The reply of a handler whose last step had status `s`. */
  function Reply(s: Result<()>, msg: string): (r: Result<string>)
    ensures r.Ok? <==> s.Ok?
    ensures r.Ok? ==> r.value == msg
    ensures r.Err? ==> r.error == s.error
  {
    match s
    case Ok(_) => Ok(msg)
    case Err(e) => Err(e)
  }

  // ---------- the handlers on values ----------

  /** `add_contact name phone`: a new name is filed first, with no phones
      and no birthday, and only then is the phone added, so the contact stays
      even when the phone is rejected. */
  function AddContactSpec(book: map<string, Contact>, args: seq<string>): (h: Handled)
    ensures |args| < 2 ==> h == Handled(book, Err(IndexError))
    ensures |args| >= 2 ==> h.contacts.Keys == book.Keys + {args[0]}
    ensures |args| >= 2 ==> forall n | n in book && n != args[0] :: h.contacts[n] == book[n]
    ensures |args| >= 2 ==> (h.reply.Ok? <==> IsPhoneText(args[1]))
    ensures |args| >= 2 && h.reply.Err? ==> h.reply.error == ValueError(PhoneFormatMsg)
    ensures |args| >= 2 && h.reply.Ok? ==>
      h.reply.value == if args[0] in book then ContactUpdatedMsg else ContactAddedMsg
  {
    if |args| < 2 then Handled(book, Err(IndexError))
    else
      var name, phone := args[0], args[1];
      var before := if name in book then book[name] else Contact([], None);
      Handled(book[name := WithPhoneAdded(before, phone)],
              Reply(Status(PhonesAfterAdd(before.phones, phone)),
                    if name in book then ContactUpdatedMsg else ContactAddedMsg))
  }

  /** A contact after `add_phone`: the phone list as it stands after the
      append, or as it was when the phone was rejected. */
  function WithPhoneAdded(c: Contact, phone: string): (d: Contact)
    ensures d.birthday == c.birthday
    ensures d.phones == if IsPhoneText(phone) then c.phones + [phone] else c.phones
  {
    c.(phones := PhonesAfter(c.phones, PhonesAfterAdd(c.phones, phone)))
  }

  /** An existing name keeps the number of contacts and gains one phone at
      the end when the phone is valid; a new name adds exactly one contact,
      whose phone list is the one phone, or empty when the phone was
      rejected. */
  lemma AddContactCounts(book: map<string, Contact>, args: seq<string>)
    requires |args| >= 2
    ensures var h, name, phone := AddContactSpec(book, args), args[0], args[1];
      |h.contacts| == (if name in book then |book| else |book| + 1)
      && (name in book ==> h.contacts[name].birthday == book[name].birthday
                           && h.contacts[name].phones
                              == (if IsPhoneText(phone) then book[name].phones + [phone] else book[name].phones))
      && (name !in book ==> h.contacts[name] == Contact(if IsPhoneText(phone) then [phone] else [], None))
  {
    var h, name := AddContactSpec(book, args), args[0];
    if name !in book {
      assert h.contacts.Keys == book.Keys + {name};
      assert |h.contacts.Keys| == |book.Keys| + 1;
    } else {
      assert h.contacts.Keys == book.Keys;
    }
  }

  /** `change_contact name old new`: the named contact's first phone equal
      to `old` replaced by `new`; a missing contact is the "Contact not
      found." key error, and any error leaves the book as it was. */
  function ChangeContactSpec(book: map<string, Contact>, args: seq<string>): (h: Handled)
    ensures |args| < 3 ==> h == Handled(book, Err(IndexError))
    ensures |args| >= 3 && args[0] !in book ==> h == Handled(book, Err(KeyError(ContactNotFoundMsg)))
    ensures h.contacts.Keys == book.Keys
    ensures forall n | n in book && (|args| < 3 || n != args[0]) :: h.contacts[n] == book[n]
    ensures h.reply.Err? ==> h.contacts == book
    ensures h.reply.Ok? <==> |args| >= 3 && args[0] in book && args[1] in book[args[0]].phones && IsPhoneText(args[2])
    ensures h.reply.Ok? ==>
      h.reply.value == PhoneChangedMsg
      && h.contacts == book[args[0] := book[args[0]].(phones := PhonesAfterEdit(book[args[0]].phones, args[1], args[2]).value)]
    ensures |args| >= 3 && args[0] in book && h.reply.Err? ==>
      h.reply.error == if args[1] in book[args[0]].phones then ValueError(PhoneFormatMsg) else ValueError(OldPhoneNotFoundMsg)
  {
    if |args| < 3 then Handled(book, Err(IndexError))
    else
      var name, oldPhone, newPhone := args[0], args[1], args[2];
      if name !in book then Handled(book, Err(KeyError(ContactNotFoundMsg)))
      else
        Handled(book[name := WithPhoneEdited(book[name], oldPhone, newPhone)],
                Reply(Status(PhonesAfterEdit(book[name].phones, oldPhone, newPhone)), PhoneChangedMsg))
  }

  /** A contact after `edit_phone`: the phone list as it stands after the
      replacement, or as it was when the edit failed. */
  function WithPhoneEdited(c: Contact, oldPhone: string, newPhone: string): (d: Contact)
    ensures d.birthday == c.birthday && |d.phones| == |c.phones|
    ensures oldPhone !in c.phones || !IsPhoneText(newPhone) ==> d == c
    ensures oldPhone in c.phones && IsPhoneText(newPhone) ==>
      d.phones == PhonesAfterEdit(c.phones, oldPhone, newPhone).value
  {
    c.(phones := PhonesAfter(c.phones, PhonesAfterEdit(c.phones, oldPhone, newPhone)))
  }

  /** `add-birthday name date`: sets the named contact's birthday to the
      text given when it is a date; a missing contact is the "Contact not
      found." key error, and any error leaves the book as it was. */
  function AddBirthdaySpec(book: map<string, Contact>, args: seq<string>): (h: Handled)
    ensures |args| < 2 ==> h == Handled(book, Err(IndexError))
    ensures |args| >= 2 && args[0] !in book ==> h == Handled(book, Err(KeyError(ContactNotFoundMsg)))
    ensures h.contacts.Keys == book.Keys
    ensures h.reply.Err? ==> h.contacts == book
    ensures h.reply.Ok? <==> |args| >= 2 && args[0] in book && ParseDate(args[1]).Some?
    ensures h.reply.Ok? ==>
      h.reply.value == BirthdayAddedMsg
      && h.contacts == book[args[0] := Contact(book[args[0]].phones, Some(args[1]))]
    ensures |args| >= 2 && args[0] in book && h.reply.Err? ==> h.reply.error == ValueError(DateFormatMsg)
  {
    if |args| < 2 then Handled(book, Err(IndexError))
    else
      var name := args[0];
      if name !in book then Handled(book, Err(KeyError(ContactNotFoundMsg)))
      else
        Handled(book[name := WithBirthday(book[name], args[1])],
                Reply(Status(NewBirthday(args[1])), BirthdayAddedMsg))
  }

  /** A contact after `add_birthday`: the text as its birthday when it is a
      date, otherwise unchanged. */
  function WithBirthday(c: Contact, text: string): (d: Contact)
    ensures d.phones == c.phones
    ensures d.birthday == if ParseDate(text).Some? then Some(text) else c.birthday
  {
    match NewBirthday(text)
    case Err(_) => c
    case Ok(b) => c.(birthday := Some(b))
  }

  // ---------- the handlers on the book ----------

  /** `add_contact`, on the book in place. */
  method AddContact(args: seq<string>, book: AddressBook) returns (r: Result<string>)
    requires book.Valid()
    modifies book, book.data.Values
    ensures book.Valid()
    ensures var h := AddContactSpec(old(book.Contents()), args);
      book.Contents() == h.contacts && r == h.reply
    ensures book.order == if |args| >= 2 && args[0] !in old(book.data) then old(book.order) + [args[0]] else old(book.order)
  {
    if |args| < 2 {
      return Err(IndexError);
    }
    var name, phone := args[0], args[1];
    var record := book.Find(name);
    if record == null {
      r := AddNewContact(book, name, phone);
    } else {
      var added := AddPhoneInBook(book, record, phone);
      r := Reply(added, ContactUpdatedMsg);
    }
  }

  /** The new-name branch of `add_contact`: the record is filed before the
      phone is validated, so it stays, without phones, when the phone is
      rejected. */
  method AddNewContact(book: AddressBook, name: string, phone: string) returns (r: Result<string>)
    requires book.Valid() && name !in book.data
    modifies book
    ensures book.Valid()
    ensures book.order == old(book.order) + [name]
    ensures book.Contents() == old(book.Contents())[name := WithPhoneAdded(Contact([], None), phone)]
    ensures r == Reply(Status(PhonesAfterAdd([], phone)), ContactAddedMsg)
  {
    ghost var before := book.Contents();
    var record := FileNewRecord(book, name);
    var added := AddPhoneInBook(book, record, phone);
    r := Reply(added, ContactAddedMsg);
    UpdateTwice(before, name, Contact([], None), WithPhoneAdded(Contact([], None), phone));
  }

  /** A second update of the same key overrides the first. */
  lemma UpdateTwice<K, V>(m: map<K, V>, k: K, a: V, b: V)
    ensures m[k := a][k := b] == m[k := b]
  {
  }

  /** `Record(name)` filed with `book.add_record`: a contact with no phones
      and no birthday, last in the order. */
  method FileNewRecord(book: AddressBook, name: string) returns (record: Record)
    requires book.Valid() && name !in book.data
    modifies book
    ensures book.Valid() && fresh(record) && record.name == name && record.Value() == Contact([], None)
    ensures book.data == old(book.data)[name := record] && book.order == old(book.order) + [name]
    ensures book.Contents() == old(book.Contents())[name := Contact([], None)]
  {
    record := new Record(name);
    book.AddRecord(record);
  }

  /** `record.add_phone(phone)` on a record filed in the book: the book
      changes at the record's name alone. */
  method AddPhoneInBook(book: AddressBook, record: Record, phone: string) returns (s: Result<()>)
    requires book.Valid() && record.name in book.data && book.data[record.name] == record
    modifies record
    ensures book.Valid()
    ensures s == Status(PhonesAfterAdd(old(record.phones), phone))
    ensures book.Contents() == old(book.Contents())[record.name := WithPhoneAdded(old(record.Value()), phone)]
  {
    s := record.AddPhone(phone);
  }

  /** `change_contact`, on the book in place. */
  method ChangeContact(args: seq<string>, book: AddressBook) returns (r: Result<string>)
    requires book.Valid()
    modifies book.data.Values
    ensures book.Valid()
    ensures var h := ChangeContactSpec(old(book.Contents()), args);
      book.Contents() == h.contacts && r == h.reply
  {
    if |args| < 3 {
      return Err(IndexError);
    }
    var name, oldPhone, newPhone := args[0], args[1], args[2];
    var record := book.Find(name);
    if record == null {
      return Err(KeyError(ContactNotFoundMsg));
    }
    var edited := record.EditPhone(oldPhone, newPhone);
    r := Reply(edited, PhoneChangedMsg);
  }

  /** `add_birthday`, on the book in place. */
  method AddBirthday(args: seq<string>, book: AddressBook) returns (r: Result<string>)
    requires book.Valid()
    modifies book.data.Values
    ensures book.Valid()
    ensures var h := AddBirthdaySpec(old(book.Contents()), args);
      book.Contents() == h.contacts && r == h.reply
  {
    if |args| < 2 {
      return Err(IndexError);
    }
    var name, text := args[0], args[1];
    var record := book.Find(name);
    if record == null {
      return Err(KeyError(ContactNotFoundMsg));
    }
    var status := record.AddBirthday(text);
    r := Reply(status, BirthdayAddedMsg);
  }
}
