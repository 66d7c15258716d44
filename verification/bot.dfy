/** The bot's own string logic: who counts as a manager, the e-mail check, the message texts for
    events, the calendar and archive results, the calendar update, and the splitting of long
    messages. */
module Bot {
  import opened Wrappers
  import Text
  import Regex
  import Pipeline

  // ---------------------------------------------------------------------------------------------
  // Managers.

  /** The position titles that open the manager menu, as the bot lists them. */
  const ManagingPositions: seq<string> := ["директор", "генеральный директор", "ceo", "руководитель",
    "заместитель директора", "вице-президент", "vp", "coo", "cto", "cfo", "управляющий",
    "управляющий директор", "начальник", "шеф", "владелец", "собственник", "founder", "основатель"]

  /** Some title of `titles` occurs in `hay`, trying them in order. */
  function AnyOccurs(hay: string, titles: seq<string>): (r: bool)
    ensures r <==> exists k :: 0 <= k < |titles| && Text.Contains(hay, titles[k])
  {
    if titles == [] then false
    else if Text.Contains(hay, titles[0]) then true
    else
      var r := AnyOccurs(hay, titles[1..]);
      assert forall k :: 1 <= k < |titles| ==> titles[k] == titles[1..][k - 1];
      r
  }

  /** `is_managing_position`: the position, lower-cased and stripped, contains one of the titles. */
  function IsManagingPosition(position: string): bool {
    AnyOccurs(Text.Strip(Text.Lower(position)), ManagingPositions)
  }

  /** A position counts as managing exactly when some listed title occurs in its lower-cased,
      stripped form; changing the case of the position changes nothing. */
  lemma ManagingSpec(position: string)
    ensures IsManagingPosition(position) <==>
      exists k :: 0 <= k < |ManagingPositions| && Text.Contains(Text.Strip(Text.Lower(position)), ManagingPositions[k])
    ensures IsManagingPosition(Text.Lower(position)) == IsManagingPosition(position)
  {
    Text.LowerIsLowered(position);
    Text.LoweredFixed(Text.Lower(position));
  }

  /** The test is by substring, so a coordinator counts as a manager: `coordinator` contains
      `coo`. */
  lemma CoordinatorIsManaging(position: string)
    requires position == "coordinator"
    ensures IsManagingPosition(position)
  {
    assert Text.Lower(position) == position;
    Text.StripTrimmed(position);
    assert ManagingPositions[7] == "coo";
    assert Text.OccursAt(position, "coo", 0);
  }

  /** A letter or digit: what may not stand right before or after a title matched as a word. */
  predicate IsWordChar(c: char) {
    Text.IsDigit(c) || 'a' <= c <= 'z' || 'A' <= c <= 'Z' || 'а' <= c <= 'я' || 'А' <= c <= 'Я'
    || c == 'ё' || c == 'Ё'
  }

  /** `needle` occurs at `i` as a whole word. */
  predicate WordAt(hay: string, needle: string, i: int) {
    && Text.OccursAt(hay, needle, i)
    && (i == 0 || !IsWordChar(hay[i - 1]))
    && (i + |needle| == |hay| || !IsWordChar(hay[i + |needle|]))
  }

  predicate ContainsWord(hay: string, needle: string) {
    exists i :: 0 <= i <= |hay| - |needle| && WordAt(hay, needle, i)
  }

  /** Some title of `titles` occurs in `hay` as a whole word. */
  function AnyWordOccurs(hay: string, titles: seq<string>): (r: bool)
    ensures r <==> exists k :: 0 <= k < |titles| && ContainsWord(hay, titles[k])
  {
    if titles == [] then false
    else if ContainsWord(hay, titles[0]) then true
    else
      var r := AnyWordOccurs(hay, titles[1..]);
      assert forall k :: 1 <= k < |titles| ==> titles[k] == titles[1..][k - 1];
      r
  }

  /** The manager test as it is evidently meant: a listed title counts only as a whole word, so that
      `coo` is found in `coo` but not in `coordinator`. */
  function IsManagingTitle(position: string): bool {
    AnyWordOccurs(Text.Strip(Text.Lower(position)), ManagingPositions)
  }

  /** A title found as a word is found as a substring: the corrected test only ever says no where
      the code says yes. */
  lemma ManagingTitleIsManaging(position: string)
    ensures IsManagingTitle(position) ==> IsManagingPosition(position)
  {
    var hay := Text.Strip(Text.Lower(position));
    if IsManagingTitle(position) {
      var k :| 0 <= k < |ManagingPositions| && ContainsWord(hay, ManagingPositions[k]);
      var i :| 0 <= i <= |hay| - |ManagingPositions[k]| && WordAt(hay, ManagingPositions[k], i);
      assert Text.Contains(hay, ManagingPositions[k]);
    }
  }

  /** Inside a single word the only whole-word occurrence is the word itself. */
  lemma WordInWord(w: string, t: string)
    requires forall i :: 0 <= i < |w| ==> IsWordChar(w[i])
    ensures ContainsWord(w, t) <==> t == w
  {
    if ContainsWord(w, t) {
      var i :| 0 <= i <= |w| - |t| && WordAt(w, t, i);
      WholeWordAt(w, t, i);
      assert w[0..|w|] == w;
    }
    if t == w {
      assert w[0..|w|] == w;
      assert WordAt(w, t, 0);
    }
  }

  lemma WholeWordAt(w: string, t: string, i: int)
    requires forall j :: 0 <= j < |w| ==> IsWordChar(w[j])
    requires WordAt(w, t, i)
    ensures i == 0 && i + |t| == |w|
  {
  }

  /** A position that is one lower-case word is managing, under the corrected test, exactly when it
      is one of the listed titles. */
  lemma SingleWordTitle(w: string)
    requires forall i :: 0 <= i < |w| ==> IsWordChar(w[i])
    requires Text.IsLowered(w)
    ensures IsManagingTitle(w) <==> w in ManagingPositions
  {
    Text.LoweredFixed(w);
    if w != "" {
      assert !Text.IsSpace(w[0]) && !Text.IsSpace(w[|w| - 1]);
    }
    Text.StripTrimmed(w);
    forall k | 0 <= k < |ManagingPositions|
      ensures ContainsWord(w, ManagingPositions[k]) <==> ManagingPositions[k] == w
    {
      WordInWord(w, ManagingPositions[k]);
    }
  }

  /** Under the corrected test a coordinator is not a manager. */
  lemma CoordinatorNotManagingTitle(position: string)
    requires position == "coordinator"
    ensures !IsManagingTitle(position)
  {
    assert Text.IsLowered(position);
    assert forall i :: 0 <= i < |position| ==> IsWordChar(position[i]);
    assert position !in ManagingPositions;
    SingleWordTitle(position);
  }

  // ---------------------------------------------------------------------------------------------
  // E-mail.

  const LocalClass := Regex.In([('a', 'z'), ('A', 'Z'), ('0', '9'), ('_', '_'), ('.', '.'), ('+', '+'), ('-', '-')])
  const DomainClass := Regex.In([('a', 'z'), ('A', 'Z'), ('0', '9'), ('-', '-')])
  const TopClass := Regex.In([('a', 'z'), ('A', 'Z'), ('0', '9'), ('-', '-'), ('.', '.')])

  /** `^[a-zA-Z0-9_.+-]+@[a-zA-Z0-9-]+\.[a-zA-Z0-9-.]+$`. */
  const EmailPattern := Regex.Pattern([Regex.Atom(LocalClass, 1, Regex.Unbounded), Regex.Lit('@'),
    Regex.Atom(DomainClass, 1, Regex.Unbounded), Regex.Lit('.'), Regex.Atom(TopClass, 1, Regex.Unbounded)], true)

  /** `is_valid_email`. */
  predicate IsValidEmail(email: string) {
    Regex.Match(EmailPattern, email).Some?
  }

  /** Every character of `s` is in `cls`. */
  predicate AllIn(s: string, cls: Regex.CharClass) {
    forall i :: 0 <= i < |s| ==> Regex.InClass(s[i], cls)
  }

  /** `at` and `dot` split `b` into a non-empty local part, `@`, a non-empty domain, `.`, and a
      non-empty rest, each made of its allowed characters. */
  predicate EmailSplit(b: string, at: nat, dot: nat) {
    && 0 < at && at + 1 < dot && dot + 1 < |b|
    && b[at] == '@' && b[dot] == '.'
    && AllIn(b[..at], LocalClass) && AllIn(b[at + 1..dot], DomainClass) && AllIn(b[dot + 1..], TopClass)
  }

  /** `b` has the shape local`@`domain`.`rest. */
  predicate EmailShape(b: string) {
    exists at: nat, dot: nat :: at < |b| && dot < |b| && EmailSplit(b, at, dot)
  }

  /** An address is accepted exactly when it, or it less one final newline (which `$` lets
      through), has the shape local`@`domain`.`rest. */
  lemma EmailSpec(email: string)
    ensures IsValidEmail(email) <==>
      EmailShape(email) || (email != "" && email[|email| - 1] == '\n' && EmailShape(email[..|email| - 1]))
  {
    if IsValidEmail(email) {
      EmailSound(email);
    }
    if EmailShape(email) {
      var at: nat, dot: nat :| EmailSplit(email, at, dot);
      EmailComplete(email, email, at, dot);
    }
    if email != "" && email[|email| - 1] == '\n' && EmailShape(email[..|email| - 1]) {
      var body := email[..|email| - 1];
      var at: nat, dot: nat :| EmailSplit(body, at, dot);
      EmailComplete(email, body, at, dot);
    }
  }

  lemma EmailSound(email: string)
    requires IsValidEmail(email)
    ensures EmailShape(email) || (email != "" && email[|email| - 1] == '\n' && EmailShape(email[..|email| - 1]))
  {
    var b := Regex.Match(EmailPattern, email).value;
    var atoms := EmailPattern.atoms;
    assert Regex.Fits(atoms[0], email, b[0], b[1]);
    assert Regex.Fits(atoms[1], email, b[1], b[2]);
    assert Regex.Fits(atoms[2], email, b[2], b[3]);
    assert Regex.Fits(atoms[3], email, b[3], b[4]);
    assert Regex.Fits(atoms[4], email, b[4], b[5]);
    Regex.InLit('@', email[b[1]]);
    Regex.InLit('.', email[b[3]]);
    var body := email[..b[5]];
    assert AllIn(body[..b[1]], LocalClass) by {
      assert forall j :: 0 <= j < b[1] ==> body[..b[1]][j] == email[j];
    }
    assert AllIn(body[b[2]..b[3]], DomainClass) by {
      assert forall j :: 0 <= j < b[3] - b[2] ==> body[b[2]..b[3]][j] == email[b[2] + j];
    }
    assert AllIn(body[b[4]..], TopClass) by {
      assert forall j :: 0 <= j < b[5] - b[4] ==> body[b[4]..][j] == email[b[4] + j];
    }
    assert EmailSplit(body, b[1], b[3]);
    if b[5] != |email| {
      assert email[..|email| - 1] == body;
    } else {
      assert email == body;
    }
  }

  lemma EmailComplete(email: string, body: string, at: nat, dot: nat)
    requires EmailSplit(body, at, dot)
    requires email == body || email == body + "\n"
    ensures IsValidEmail(email)
  {
    var atoms := EmailPattern.atoms;
    var b := [0, at, at + 1, dot, dot + 1, |body|];
    assert forall j :: 0 <= j < |body| ==> email[j] == body[j];
    Regex.InLit('@', email[at]);
    Regex.InLit('.', email[dot]);
    assert Regex.Fits(atoms[0], email, b[0], b[1]) by {
      assert forall j :: 0 <= j < at ==> body[..at][j] == email[j];
    }
    assert Regex.Fits(atoms[1], email, b[1], b[2]);
    assert Regex.Fits(atoms[2], email, b[2], b[3]) by {
      assert forall j :: at + 1 <= j < dot ==> body[at + 1..dot][j - at - 1] == email[j];
    }
    assert Regex.Fits(atoms[3], email, b[3], b[4]);
    assert Regex.Fits(atoms[4], email, b[4], b[5]) by {
      assert forall j :: dot + 1 <= j < |body| ==> body[dot + 1..][j - dot - 1] == email[j];
    }
    assert Regex.Accepts(atoms, true, email, b);
    Regex.MatchComplete(atoms, true, email, b);
  }

  // ---------------------------------------------------------------------------------------------
  // Long messages.

  /** Telegram's limit on one message. */
  const MessageLimit: nat := 4096

  /** The pieces joined back together. */
  function Concat(parts: seq<string>): string {
    if parts == [] then "" else parts[0] + Concat(parts[1..])
  }

  lemma {:induction false} ConcatSnoc(parts: seq<string>, last: string)
    ensures Concat(parts + [last]) == Concat(parts) + last
  {
    if parts != [] {
      ConcatSnoc(parts[1..], last);
      assert (parts + [last])[1..] == parts[1..] + [last];
    }
  }

  /** The messages a text is sent as: the text itself when it fits, otherwise consecutive slices
      of `MessageLimit` characters, the last one shorter. */
  method Chunks(text: string) returns (parts: seq<string>)
    ensures Concat(parts) == text
    ensures forall k :: 0 <= k < |parts| ==> 0 < |parts[k]| <= MessageLimit || (text == "" && parts == [""])
    ensures forall k :: 0 <= k < |parts| - 1 ==> |parts[k]| == MessageLimit
    ensures |text| <= MessageLimit ==> parts == [text]
  {
    if |text| <= MessageLimit {
      parts := [text];
      return;
    }
    parts := [];
    var i := 0;
    while i < |text|
      invariant 0 <= i <= |text|
      invariant i == |parts| * MessageLimit || i == |text|
      invariant Concat(parts) == text[..i]
      invariant forall k :: 0 <= k < |parts| ==> 0 < |parts[k]| <= MessageLimit
      invariant i < |text| ==> forall k :: 0 <= k < |parts| ==> |parts[k]| == MessageLimit
      invariant forall k :: 0 <= k < |parts| - 1 ==> |parts[k]| == MessageLimit
      decreases |text| - i
    {
      var j := if i + MessageLimit <= |text| then i + MessageLimit else |text|;
      ConcatSnoc(parts, text[i..j]);
      assert text[..i] + text[i..j] == text[..j];
      parts := parts + [text[i..j]];
      i := j;
    }
    assert text[..i] == text;
  }

  // ---------------------------------------------------------------------------------------------
  // The calendar column: event names separated by `;`.

  /** The stripped pieces that are not empty, in order. */
  function CleanPieces(pieces: seq<string>): (r: seq<string>)
    ensures forall x :: x in r ==> x != "" && Text.Trimmed(x)
    ensures (forall k :: 0 <= k < |pieces| ==> ';' !in pieces[k]) ==> forall x :: x in r ==> ';' !in x
  {
    if pieces == [] then []
    else
      var rest := CleanPieces(pieces[1..]);
      var x := Text.Strip(pieces[0]);
      Text.StripChars(pieces[0]);
      if x != "" then [x] + rest else rest
  }

  /** `[e.strip() for e in calendar.split(';') if e.strip()]`. */
  function CalendarEntries(calendar: string): (r: seq<string>)
    ensures forall x :: x in r ==> x != "" && Text.Trimmed(x) && ';' !in x
  {
    Text.SplitJoin(calendar, ';');
    CleanPieces(Text.Split(calendar, ';'))
  }

  /** The entries written back, separated by `; `. */
  function CalendarText(entries: seq<string>): string {
    Text.Join(entries, "; ")
  }

  /** The calendar part of `update_user_calendar`. `row` is the user's stored calendar, `None` when
      there is no such user (a `NULL` column reads as `""`). The result is the text written back,
      or `None` when nothing is written and the call returns `False`. */
  function UpdateCalendar(row: Option<string>, name: string): (r: Option<string>)
    ensures r.Some? <==> row.Some? && name !in CalendarEntries(row.value)
    ensures r.Some? ==> r.value == CalendarText(CalendarEntries(row.value) + [name])
    ensures r.Some? && name != "" && Text.Trimmed(name) && ';' !in name ==>
      CalendarEntries(r.value) == CalendarEntries(row.value) + [name]
  {
    match row
    case None => None
    case Some(calendar) =>
      var entries := CalendarEntries(calendar);
      if name !in entries then
        AppendedEntries(entries, name);
        Some(CalendarText(entries + [name]))
      else None
  }

  /** Clean entries followed by a clean name read back as themselves once written. */
  lemma AppendedEntries(entries: seq<string>, name: string)
    requires forall x :: x in entries ==> x != "" && Text.Trimmed(x) && ';' !in x
    ensures name != "" && Text.Trimmed(name) && ';' !in name ==>
      CalendarEntries(CalendarText(entries + [name])) == entries + [name]
  {
    if name != "" && Text.Trimmed(name) && ';' !in name {
      EntriesOfText(entries + [name]);
    }
  }

  lemma {:induction false} SplitAfter(a: string, t: string, sep: char)
    requires sep !in a
    ensures Text.Split(a + [sep] + t, sep) == [a] + Text.Split(t, sep)
  {
    if a == "" {
      assert a + [sep] + t == [sep] + t;
      assert ([sep] + t)[1..] == t;
    } else {
      SplitAfter(a[1..], t, sep);
      assert (a + [sep] + t)[1..] == a[1..] + [sep] + t;
      var rest := Text.Split(a[1..] + [sep] + t, sep);
      assert rest[0] == a[1..];
      assert [a[0]] + a[1..] == a;
    }
  }

  lemma {:induction false} SplitNoSep(a: string, sep: char)
    requires sep !in a
    ensures Text.Split(a, sep) == [a]
  {
    if a != "" {
      SplitNoSep(a[1..], sep);
      assert [a[0]] + a[1..] == a;
    }
  }

  lemma SplitSpaceFirst(u: string, sep: char)
    requires sep != ' '
    ensures var r := Text.Split(u, sep); Text.Split(" " + u, sep) == [" " + r[0]] + r[1..]
  {
    assert (" " + u)[1..] == u;
  }

  lemma StripSpaceFirst(p: string)
    ensures Text.Strip(" " + p) == Text.Strip(p)
  {
    var q := " " + p;
    assert q[0] == ' ' && q[1..] == p;
  }

  lemma CleanFirst(x: string, ps: seq<string>)
    requires x != "" && Text.Trimmed(x)
    ensures CleanPieces([x] + ps) == [x] + CleanPieces(ps)
  {
    assert ([x] + ps)[1..] == ps;
    Text.StripTrimmed(x);
  }

  lemma CleanSpaceFirst(r: seq<string>)
    requires |r| >= 1
    ensures CleanPieces([" " + r[0]] + r[1..]) == CleanPieces(r)
  {
    StripSpaceFirst(r[0]);
    assert ([" " + r[0]] + r[1..])[1..] == r[1..];
  }

  /** The pieces of `x; rest`: `x`, then the pieces of `rest` with a space in front of the first. */
  lemma PiecesOfText(x: string, rest: seq<string>)
    requires ';' !in x && rest != []
    ensures var r := Text.Split(CalendarText(rest), ';');
      Text.Split(CalendarText([x] + rest), ';') == [x] + ([" " + r[0]] + r[1..])
  {
    var u := CalendarText(rest);
    assert ([x] + rest)[1..] == rest;
    assert CalendarText([x] + rest) == x + [';'] + (" " + u);
    SplitAfter(x, " " + u, ';');
    SplitSpaceFirst(u, ';');
  }

  /** Writing entries back and reading them again gives the same entries, when each is non-empty,
      has no surrounding whitespace and holds no `;`. */
  lemma {:induction false} EntriesOfText(entries: seq<string>)
    requires forall x :: x in entries ==> x != "" && Text.Trimmed(x) && ';' !in x
    ensures CalendarEntries(CalendarText(entries)) == entries
  {
    if entries == [] {
      assert Text.Split("", ';') == [""];
      Text.StripAllSpace("");
    } else if |entries| == 1 {
      var x := entries[0];
      SplitNoSep(x, ';');
      assert CleanPieces([]) == [];
      CleanFirst(x, []);
    } else {
      var x := entries[0];
      var rest := entries[1..];
      assert forall y :: y in rest ==> y in entries;
      EntriesOfText(rest);
      var r := Text.Split(CalendarText(rest), ';');
      PiecesOfText(x, rest);
      assert entries == [x] + rest;
      CleanFirst(x, [" " + r[0]] + r[1..]);
      CleanSpaceFirst(r);
    }
  }

  /** Adding an event the calendar does not list appends it as the last entry, when the name is
      non-empty, has no surrounding whitespace and holds no `;`. */
  lemma UpdateAppends(calendar: string, name: string)
    requires name != "" && Text.Trimmed(name) && ';' !in name
    requires name !in CalendarEntries(calendar)
    ensures CalendarEntries(UpdateCalendar(Some(calendar), name).value) == CalendarEntries(calendar) + [name]
  {
    EntriesOfText(CalendarEntries(calendar) + [name]);
  }

  /** Adding the same event twice writes once: the second call finds it and returns `False`. */
  lemma UpdateTwice(calendar: string, name: string)
    requires name != "" && Text.Trimmed(name) && ';' !in name
    ensures var once := UpdateCalendar(Some(calendar), name);
      UpdateCalendar(Some(once.GetOr(calendar)), name).None?
  {
    if name !in CalendarEntries(calendar) {
      UpdateAppends(calendar, name);
    }
  }

  /** A name holding `; ` is stored as two entries, so it is never found and is added again on
      every call: `Day 1; Day 2` twice gives `Day 1; Day 2; Day 1; Day 2`. */
  lemma NameWithSeparator(a: string, b: string)
    requires a != "" && Text.Trimmed(a) && ';' !in a
    requires b != "" && Text.Trimmed(b) && ';' !in b
    ensures var name := a + "; " + b;
      var once := UpdateCalendar(Some(""), name);
      once == Some(name) && UpdateCalendar(once, name) == Some(name + "; " + name)
  {
    var name := a + "; " + b;
    assert CalendarEntries("") == [] by {
      assert Text.Split("", ';') == [""];
      Text.StripAllSpace("");
    }
    assert [] + [name] == [name];
    assert CalendarText([name]) == name;
    assert UpdateCalendar(Some(""), name) == Some(name);
    var parts := [a, b];
    assert Text.Join([b], "; ") == b;
    assert parts[1..] == [b];
    assert CalendarText(parts) == name;
    EntriesOfText(parts);
    assert CalendarEntries(name) == parts;
    assert name != a && name != b;
    var three := parts + [name];
    assert three[1..] == [b, name];
    assert [b, name][1..] == [name];
    assert Text.Join([b, name], "; ") == b + "; " + name;
    assert CalendarText(three) == a + "; " + (b + "; " + name);
    assert UpdateCalendar(Some(name), name) == Some(CalendarText(three));
    Regroup(a, b, name, "; ");
  }

  /** `name` with every `;` written as `,`. */
  function WithoutSeparator(name: string): (r: string)
    ensures |r| == |name| && ';' !in r
    ensures forall i :: 0 <= i < |name| ==> r[i] == (if name[i] == ';' then ',' else name[i])
  {
    if name == "" then "" else [if name[0] == ';' then ',' else name[0]] + WithoutSeparator(name[1..])
  }

  /** The calendar update as it is evidently meant: whatever name is typed is stored as one entry
      (its `;` written as `,`, then stripped), and an empty entry is never written. */
  function UpdateCalendarOneEntry(row: Option<string>, name: string): Option<string> {
    var entry := Text.Strip(WithoutSeparator(name));
    if entry == "" then None else UpdateCalendar(row, entry)
  }

  /** With the corrected update, adding any name twice writes once. */
  lemma OneEntryTwice(calendar: string, name: string)
    ensures var once := UpdateCalendarOneEntry(Some(calendar), name);
      UpdateCalendarOneEntry(Some(once.GetOr(calendar)), name).None?
  {
    var entry := Text.Strip(WithoutSeparator(name));
    if entry != "" {
      Text.StripChars(WithoutSeparator(name));
      UpdateTwice(calendar, entry);
    }
  }

  /** For a name the code already handles, the corrected update does what the code does. */
  lemma OneEntryAgrees(row: Option<string>, name: string)
    requires name != "" && Text.Trimmed(name) && ';' !in name
    ensures UpdateCalendarOneEntry(row, name) == UpdateCalendar(row, name)
  {
    assert WithoutSeparator(name) == name;
    Text.StripTrimmed(name);
  }

  lemma Regroup(a: string, b: string, c: string, sep: string)
    ensures a + sep + (b + sep + c) == (a + sep + b) + sep + c
  {
  }

  /** `update_user_calendar` as the registration step calls it: the typed name is stripped and
      refused when shorter than five characters (`None`); otherwise the calendar is updated. */
  function RegisterEvent(row: Option<string>, typed: string): (r: Option<Option<string>>)
    ensures r.Some? <==> |Text.Strip(typed)| >= 5
  {
    var name := Text.Strip(typed);
    if |name| < 5 then None else Some(UpdateCalendar(row, name))
  }

  /** Registering the same typed name twice writes the calendar once, unless the name holds a `;`. */
  lemma RegisterTwice(calendar: string, typed: string)
    requires |Text.Strip(typed)| >= 5 && ';' !in typed
    ensures var once := RegisterEvent(Some(calendar), typed).value;
      RegisterEvent(Some(once.GetOr(calendar)), typed) == Some(None)
  {
    UpdateTwice(calendar, Text.Strip(typed));
  }

  // ---------------------------------------------------------------------------------------------
  // Message texts.

  /** `needle` occurs in a text that has it in the middle. */
  lemma ContainsMiddle(pre: string, needle: string, post: string)
    ensures Text.Contains(pre + needle + post, needle)
  {
    assert (pre + needle + post)[|pre|..|pre| + |needle|] == needle;
    assert Text.OccursAt(pre + needle + post, needle, |pre|);
  }

  /** A text that occurs in `b` occurs in anything that embeds `b`. */
  lemma ContainsWithin(pre: string, b: string, post: string, needle: string)
    requires Text.Contains(b, needle)
    ensures Text.Contains(pre + b + post, needle)
  {
    var i :| 0 <= i <= |b| - |needle| && Text.OccursAt(b, needle, i);
    assert (pre + b + post)[|pre| + i..|pre| + i + |needle|] == b[i..i + |needle|];
    assert Text.OccursAt(pre + b + post, needle, |pre| + i);
  }

  /** A text within a text within `hay` is within `hay`. */
  lemma ContainsTransitive(hay: string, mid: string, needle: string)
    requires Text.Contains(hay, mid) && Text.Contains(mid, needle)
    ensures Text.Contains(hay, needle)
  {
    var i :| 0 <= i <= |hay| - |mid| && Text.OccursAt(hay, mid, i);
    ContainsWithin(hay[..i], mid, hay[i + |mid|..], needle);
    assert hay[..i] + mid + hay[i + |mid|..] == hay;
  }

  const EmptyCalendar := "Ваш календарь пуст. Запишитесь на мероприятия!"
  const CalendarHeader := "📅 <b>Ваш календарь мероприятий:</b>\n\n"

  /** `f"{i}. {event}\n"` for each entry, counting from `i`. */
  function NumberedLines(entries: seq<string>, i: nat): string {
    if entries == [] then ""
    else Text.NatToString(i) + ". " + entries[0] + "\n" + NumberedLines(entries[1..], i + 1)
  }

  /** `format_calendar_events`; `None` is a calendar column that is `NULL`. */
  function FormatCalendar(calendar: Option<string>): string {
    if calendar.None? || Text.Strip(calendar.value) == "" then EmptyCalendar
    else
      var entries := CalendarEntries(calendar.value);
      if entries == [] then EmptyCalendar else CalendarHeader + NumberedLines(entries, 1)
  }

  predicate AllSpace(s: string) {
    forall i :: 0 <= i < |s| ==> Text.IsSpace(s[i])
  }

  lemma StripEmpty(s: string)
    requires Text.Strip(s) == ""
    ensures AllSpace(s)
  {
    Text.StripIsLR(s);
    assert Text.LStrip(s) == "";
  }

  lemma {:induction false} SplitOfSpace(s: string, sep: char)
    requires AllSpace(s)
    ensures forall k :: 0 <= k < |Text.Split(s, sep)| ==> AllSpace(Text.Split(s, sep)[k])
  {
    if s != "" {
      SplitOfSpace(s[1..], sep);
    }
  }

  lemma {:induction false} CleanOfSpace(pieces: seq<string>)
    requires forall k :: 0 <= k < |pieces| ==> AllSpace(pieces[k])
    ensures CleanPieces(pieces) == []
  {
    if pieces != [] {
      Text.StripAllSpace(pieces[0]);
      CleanOfSpace(pieces[1..]);
    }
  }

  /** The empty-calendar text is shown exactly when the calendar lists no event; the separate test
      for a blank calendar changes nothing. Otherwise every entry gets its numbered line. */
  lemma FormatCalendarSpec(calendar: Option<string>)
    ensures FormatCalendar(calendar) == EmptyCalendar <==> calendar.None? || CalendarEntries(calendar.value) == []
    ensures calendar.Some? && CalendarEntries(calendar.value) != [] ==>
      FormatCalendar(calendar) == CalendarHeader + NumberedLines(CalendarEntries(calendar.value), 1)
  {
    if calendar.Some? && Text.Strip(calendar.value) == "" {
      StripEmpty(calendar.value);
      SplitOfSpace(calendar.value, ';');
      CleanOfSpace(Text.Split(calendar.value, ';'));
    }
    if calendar.Some? && CalendarEntries(calendar.value) != [] {
      var out := FormatCalendar(calendar);
      assert out == CalendarHeader + NumberedLines(CalendarEntries(calendar.value), 1);
      assert out[0] == CalendarHeader[0] == '📅';
      FirstChars();
    }
  }

  lemma FirstChars()
    ensures EmptyCalendar[0] == 'В' && CalendarHeader[0] == '📅'
  {
    assert |EmptyCalendar| == 46;
    assert EmptyCalendar[0..1] == "В";
  }

  /** Line `k + i` of the numbered list shows entry `k`. */
  lemma {:induction false} NumberedLinesHas(entries: seq<string>, i: nat, k: nat)
    requires k < |entries|
    ensures Text.Contains(NumberedLines(entries, i), Text.NatToString(i + k) + ". " + entries[k] + "\n")
  {
    var line := Text.NatToString(i) + ". " + entries[0] + "\n";
    var rest := NumberedLines(entries[1..], i + 1);
    if k == 0 {
      ContainsMiddle("", line, rest);
      assert "" + line + rest == NumberedLines(entries, i);
    } else {
      NumberedLinesHas(entries[1..], i + 1, k - 1);
      ContainsWithin(line, rest, "", Text.NatToString(i + k) + ". " + entries[k] + "\n");
      assert line + rest + "" == NumberedLines(entries, i);
    }
  }

  /** Every calendar entry is listed under its number. */
  lemma CalendarListsEntries(calendar: string, k: nat)
    requires k < |CalendarEntries(calendar)|
    ensures Text.Contains(FormatCalendar(Some(calendar)),
                          Text.NatToString(k + 1) + ". " + CalendarEntries(calendar)[k] + "\n")
  {
    var entries := CalendarEntries(calendar);
    FormatCalendarSpec(Some(calendar));
    NumberedLinesHas(entries, 1, k);
    ContainsWithin(CalendarHeader, NumberedLines(entries, 1), "", Text.NatToString(k + 1) + ". " + entries[k] + "\n");
    assert CalendarHeader + NumberedLines(entries, 1) + "" == FormatCalendar(Some(calendar));
  }

  // ---------------------------------------------------------------------------------------------
  // Events.

  const NoEvents := "Не удалось найти актуальные мероприятия. " + "Попробуйте позже или уточните запрос."
  const EventsHeader := "✨ <b>Актуальные IT-мероприятия:</b>\n\n"
  /** The archive-search hint that closes a numbered list. */
  const EventsFooter := "\nℹ\U{FE0F} Чтобы получить подробную информацию о мероприятии, используйте <b>Поиск по архиву</b>"
  const NoDescription := "Нет описания"

  /** How many events (or archive results) one message shows. */
  const ShownEvents: nat := 5

  /** `event.get(key, default)`. */
  function Get(e: Pipeline.EventRecord, key: Pipeline.Key, default: string): string {
    if key in e.fields then e.fields[key] else default
  }

  /** The description line's text: the first 150 characters and `...`, or a placeholder when the
      description is missing or empty. */
  function DescriptionText(e: Pipeline.EventRecord): (r: string)
    ensures r == NoDescription <==> Get(e, Pipeline.Description, "") == ""
    ensures var d := Get(e, Pipeline.Description, "");
      d != "" ==> (|d| <= 150 ==> r == d + "...") && (|d| > 150 ==> r == d[..150] + "...")
  {
    var d := Get(e, Pipeline.Description, "");
    if d != "" then
      var cut := if |d| <= 150 then d else d[..150];
      var r := cut + "...";
      assert r[|r| - 1] == '.' && NoDescription[|NoDescription| - 1] == 'я';
      r
    else NoDescription
  }

  /** The lines of the block for the event numbered `i`; the last is followed by an empty line. */
  function EventLines(i: nat, e: Pipeline.EventRecord, includeIndex: bool): seq<string> {
    [ "<b>" + (if includeIndex then Text.NatToString(i) + ". " else "") + Get(e, Pipeline.EventName, "Без названия") + "</b>\n",
      "📅 <b>Даты:</b> " + Get(e, Pipeline.StartDate, "Не указана") + " - " + Get(e, Pipeline.EndDate, "Не указана")
        + ", " + Get(e, Pipeline.Year, "") + "\n",
      "📍 <b>Место:</b> " + Get(e, Pipeline.Location, "Не указано") + "\n",
      "🔖 <b>Тип:</b> " + Get(e, Pipeline.EventType, "Не указан") + "\n",
      "📝 <b>Описание:</b> " + DescriptionText(e) + "\n",
      "🎤 <b>Спикеры:</b> " + Get(e, Pipeline.Speakers, "Не указаны") + "\n",
      "👥 <b>Участники:</b> " + Get(e, Pipeline.ParticipantsCount, "Неизвестно") + "\n",
      "🔖 <b>Категория:</b> " + Get(e, Pipeline.Category, "Не указана") + "\n\n" ]
  }

  /** The block for the event numbered `i`. */
  function EventBlock(i: nat, e: Pipeline.EventRecord, includeIndex: bool): string {
    Concat(EventLines(i, e, includeIndex))
  }

  /** An event's block names it and shows its description line. */
  lemma EventBlockShows(i: nat, e: Pipeline.EventRecord, includeIndex: bool)
    ensures Text.Contains(EventBlock(i, e, includeIndex), Get(e, Pipeline.EventName, "Без названия"))
    ensures Text.Contains(EventBlock(i, e, includeIndex), DescriptionText(e))
  {
    var lines := EventLines(i, e, includeIndex);
    var index := if includeIndex then Text.NatToString(i) + ". " else "";
    var name := Get(e, Pipeline.EventName, "Без названия");
    ConcatHas(lines, 0);
    ContainsMiddle("<b>" + index, name, "</b>\n");
    ConcatHas(lines, 4);
    ContainsMiddle("📝 <b>Описание:</b> ", DescriptionText(e), "\n");
    ContainsTransitive(EventBlock(i, e, includeIndex), lines[0], name);
    ContainsTransitive(EventBlock(i, e, includeIndex), lines[4], DescriptionText(e));
  }

  /** The events a message shows: the first five. */
  function FirstShown<T>(xs: seq<T>): (r: seq<T>)
    ensures |r| <= ShownEvents && r <= xs
    ensures |xs| <= ShownEvents ==> r == xs
    ensures |xs| > ShownEvents ==> |r| == ShownEvents
  {
    if |xs| <= ShownEvents then xs else xs[..ShownEvents]
  }

  /** The blocks of the events shown, numbered from 1. */
  function EventBlocks(events: seq<Pipeline.EventRecord>, includeIndex: bool): (r: seq<string>)
    ensures |r| == |FirstShown(events)|
    ensures forall k :: 0 <= k < |r| ==> r[k] == EventBlock(k + 1, events[k], includeIndex)
  {
    var shown := FirstShown(events);
    seq(|shown|, k requires 0 <= k < |shown| => EventBlock(k + 1, shown[k], includeIndex))
  }

  /** The message around the blocks. */
  function EventsMessage(blocks: seq<string>, includeIndex: bool): string {
    EventsHeader + Concat(blocks) + (if includeIndex then EventsFooter else "")
  }

  /** `format_events`. */
  function FormatEvents(events: seq<Pipeline.EventRecord>, includeIndex: bool): string {
    if events == [] then NoEvents else EventsMessage(EventBlocks(events, includeIndex), includeIndex)
  }

  /** Every part occurs in the concatenation. */
  lemma {:induction false} ConcatHas(parts: seq<string>, k: nat)
    requires k < |parts|
    ensures Text.Contains(Concat(parts), parts[k])
  {
    if k == 0 {
      ContainsMiddle("", parts[0], Concat(parts[1..]));
      assert "" + parts[0] + Concat(parts[1..]) == Concat(parts);
    } else {
      ConcatHas(parts[1..], k - 1);
      ContainsWithin(parts[0], Concat(parts[1..]), "", parts[k]);
      assert parts[0] + Concat(parts[1..]) + "" == Concat(parts);
    }
  }

  /** The message opens with the header, is never the apology, ends with the archive-search hint when
      numbered, and shows every block. */
  lemma EventsMessageSpec(blocks: seq<string>, includeIndex: bool)
    ensures Text.StartsWith(EventsMessage(blocks, includeIndex), EventsHeader)
    ensures EventsMessage(blocks, includeIndex) != NoEvents
    ensures includeIndex ==> Text.EndsWith(EventsMessage(blocks, includeIndex), EventsFooter)
    ensures forall k :: 0 <= k < |blocks| ==> Text.Contains(EventsMessage(blocks, includeIndex), blocks[k])
  {
    var body := Concat(blocks);
    var tail := if includeIndex then EventsFooter else "";
    var out := EventsHeader + body + tail;
    assert out == EventsHeader + (body + tail);
    assert out[..|EventsHeader|] == EventsHeader;
    assert out[0] == '✨' && NoEvents[0] == 'Н';
    if includeIndex {
      assert out[|out| - |EventsFooter|..] == EventsFooter;
    }
    forall k | 0 <= k < |blocks|
      ensures Text.Contains(out, blocks[k])
    {
      ConcatHas(blocks, k);
      ContainsWithin(EventsHeader, body, tail, blocks[k]);
    }
  }

  /** The apology is shown exactly when there are no events; otherwise the text opens with the
      header and, with numbering on, closes with the archive-search hint. */
  lemma FormatEventsSpec(events: seq<Pipeline.EventRecord>, includeIndex: bool)
    ensures FormatEvents(events, includeIndex) == NoEvents <==> events == []
    ensures events != [] ==> Text.StartsWith(FormatEvents(events, includeIndex), EventsHeader)
    ensures events != [] && includeIndex ==> Text.EndsWith(FormatEvents(events, includeIndex), EventsFooter)
  {
    if events != [] {
      EventsMessageSpec(EventBlocks(events, includeIndex), includeIndex);
    }
  }

  /** Each of the first five events is shown, under its position in the list. */
  lemma FormatEventsShows(events: seq<Pipeline.EventRecord>, includeIndex: bool, k: nat)
    requires k < |events| && k < ShownEvents
    ensures Text.Contains(FormatEvents(events, includeIndex), EventBlock(k + 1, events[k], includeIndex))
  {
    var blocks := EventBlocks(events, includeIndex);
    EventsMessageSpec(blocks, includeIndex);
    assert blocks[k] == EventBlock(k + 1, events[k], includeIndex);
  }

  /** Events after the fifth are never shown. */
  lemma FormatEventsFirstFive(events: seq<Pipeline.EventRecord>, includeIndex: bool)
    requires |events| > ShownEvents
    ensures FormatEvents(events, includeIndex) == FormatEvents(events[..ShownEvents], includeIndex)
  {
    assert FirstShown(events) == FirstShown(events[..ShownEvents]);
  }

  // ---------------------------------------------------------------------------------------------
  // Archive results.

  /** One result of the archive search: a dictionary, as its items in order (values as text), or
      anything else, as its `str()`. */
  datatype RagResult = Record(items: seq<(string, string)>) | Other(text: string)

  const NothingFound := "По вашему запросу ничего " + "не найдено в архиве."
  const RagHeader := "📚 <b>Результаты поиска по архиву:</b>\n\n"

  /** The items worth showing: a value that is non-empty and not `N/A`. */
  function ShownItems(items: seq<(string, string)>): (r: seq<(string, string)>)
    ensures forall kv :: kv in r <==> kv in items && kv.1 != "" && kv.1 != "N/A"
    ensures |r| <= |items|
  {
    if items == [] then []
    else
      var rest := ShownItems(items[1..]);
      assert forall kv :: kv in items <==> kv == items[0] || kv in items[1..];
      if items[0].1 != "" && items[0].1 != "N/A" then [items[0]] + rest else rest
  }

  /** `<b>{key}:</b> {value}` for each item. */
  function ItemLines(items: seq<(string, string)>): (r: seq<string>)
    ensures |r| == |items|
    ensures forall j :: 0 <= j < |items| ==> r[j] == "<b>" + items[j].0 + ":</b> " + items[j].1
  {
    if items == [] then [] else ["<b>" + items[0].0 + ":</b> " + items[0].1] + ItemLines(items[1..])
  }

  /** The text for the `i`-th result; a dictionary with nothing to show adds nothing. */
  function RagEntry(i: nat, result: RagResult): string {
    match result
    case Record(items) =>
      var formatted := Text.Join(ItemLines(ShownItems(items)), "\n");
      if formatted != "" then Text.NatToString(i) + ". " + formatted + "\n\n" else ""
    case Other(text) => Text.NatToString(i) + ". " + text + "\n\n"
  }

  /** `format_rag_results`. */
  function FormatRag(results: seq<RagResult>): string {
    if results == [] then NothingFound
    else
      var shown := FirstShown(results);
      RagHeader + Concat(seq(|shown|, k requires 0 <= k < |shown| => RagEntry(k + 1, shown[k])))
  }

  lemma {:induction false} JoinNonEmpty(parts: seq<string>, sep: string)
    requires parts != [] && parts[0] != ""
    ensures Text.Join(parts, sep) != ""
  {
    if |parts| > 1 {
      assert |Text.Join(parts, sep)| >= |parts[0]|;
    }
  }

  /** A dictionary adds text exactly when one of its values is worth showing; results keep their
      position numbers either way, so numbers may skip. */
  lemma RagEntrySpec(i: nat, items: seq<(string, string)>)
    ensures RagEntry(i, Record(items)) == "" <==> ShownItems(items) == []
  {
    var shown := ShownItems(items);
    if shown != [] {
      var lines := ItemLines(shown);
      assert lines[0] == "<b>" + shown[0].0 + ":</b> " + shown[0].1;
      JoinNonEmpty(lines, "\n");
      assert |RagEntry(i, Record(items))| > 0;
    } else {
      assert ItemLines(shown) == [];
    }
  }

  /** The not-found text is shown exactly when there are no results, and results after the fifth
      are never shown. */
  lemma FormatRagSpec(results: seq<RagResult>)
    ensures FormatRag(results) == NothingFound <==> results == []
    ensures |results| > ShownEvents ==> FormatRag(results) == FormatRag(results[..ShownEvents])
  {
    if results != [] {
      var out := FormatRag(results);
      assert out[0] == '📚' && NothingFound[0] == 'П';
    }
  }
}
