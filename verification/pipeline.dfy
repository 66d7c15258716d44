/** One event page turned into a record (`EventParser.parse`), the freshness filter over the
    search results (`parse_events`), and the query rewrite in front of it (`GET_EVENTS`). */
module Pipeline {
  import opened Wrappers
  import Text
  import Titles
  import Extract
  import Dates
  import Search
  import Urls

  // ---------------------------------------------------------------------------------------------
  // Records.

  /** The string fields of a record. */
  datatype Key = Year | StartDate | EndDate | EventName | EventType | Description
    | ParticipantsCount | Speakers | Partners | Category | Location | SourceUrl

  /** The name of a field: its key in the record and in the model's answer. */
  function Name(k: Key): string {
    match k
    case Year => "Year"
    case StartDate => "Start Date"
    case EndDate => "End Date"
    case EventName => "Event Name"
    case EventType => "Event Type"
    case Description => "Description"
    case ParticipantsCount => "Participants Count"
    case Speakers => "Speakers/Organizers"
    case Partners => "Partners"
    case Category => "Category"
    case Location => "Location"
    case SourceUrl => "Source URL"
  }

  /** The string fields in the order `parse` creates them. */
  const RecordKeys: seq<Key> := [Year, StartDate, EndDate, EventName, EventType, Description,
    ParticipantsCount, Speakers, Partners, Category, Location, SourceUrl]

  /** The fields copied from the model's answer, in the order of `field_mapping`; each is stored
      under its own name. */
  const AnswerFields: seq<Key> := [EventName, EventType, Description, StartDate, EndDate, Year,
    Location, Speakers, Partners, ParticipantsCount, Category]

  /** Every field is created, and every field but the address is asked of the model. */
  lemma KeyFacts()
    ensures forall k: Key :: k in RecordKeys
    ensures forall k: Key :: k in AnswerFields <==> k != SourceUrl
  {
    forall k: Key
      ensures k in RecordKeys
      ensures k in AnswerFields <==> k != SourceUrl
    {
      match k
      case Year => assert AnswerFields[5] == k;
      case StartDate => assert AnswerFields[3] == k;
      case EndDate => assert AnswerFields[4] == k;
      case EventName => assert AnswerFields[0] == k;
      case EventType => assert AnswerFields[1] == k;
      case Description => assert AnswerFields[2] == k;
      case ParticipantsCount => assert AnswerFields[9] == k;
      case Speakers => assert AnswerFields[7] == k;
      case Partners => assert AnswerFields[8] == k;
      case Category => assert AnswerFields[10] == k;
      case Location => assert AnswerFields[6] == k;
      case SourceUrl =>
    }
  }

  /** The record `parse` returns: the string fields, and `Parsed Date`, which stays `''` (here
      `None`) unless the start date was understood. */
  datatype EventRecord = EventRecord(fields: map<Key, string>, parsedDate: Option<Dates.DateTime>)

  /** The record has every string field. */
  predicate WellFormed(r: EventRecord) {
    forall k: Key :: k in r.fields
  }

  /** The record before anything is read: every field empty except the page's address. */
  function Blank(url: string): (r: EventRecord)
    ensures WellFormed(r) && r.parsedDate.None?
    ensures forall k: Key :: r.fields[k] == (if k == SourceUrl then url else "")
  {
    KeyFacts();
    EventRecord(map k | k in RecordKeys :: if k == SourceUrl then url else "", None)
  }

  // ---------------------------------------------------------------------------------------------
  // Reading the model's answer.

  /** `details.get(k, "").strip()` succeeds: `details` is an object and `k` is absent or a string. */
  predicate Readable(details: Extract.Json, k: Key) {
    details.JObject? && (Name(k) !in details.fields || details.fields[Name(k)].JString?)
  }

  /** The text `details.get(k, "")` yields when it is readable. */
  function FieldText(details: Extract.Json, k: Key): string {
    if details.JObject? && Name(k) in details.fields && details.fields[Name(k)].JString? then
      details.fields[Name(k)].text
    else ""
  }

  /** How many of `names` are read before the first one that raises. */
  function Stop(details: Extract.Json, names: seq<Key>): (n: nat)
    ensures n <= |names|
  {
    if names == [] || !Readable(details, names[0]) then 0 else 1 + Stop(details, names[1..])
  }

  /** The loop reads every name before the stop, and the name at the stop raises. */
  lemma {:induction false} StopSpec(details: Extract.Json, names: seq<Key>)
    ensures var n := Stop(details, names);
      && (forall j :: 0 <= j < n ==> Readable(details, names[j]))
      && (n < |names| ==> !Readable(details, names[n]))
  {
    if names != [] && Readable(details, names[0]) {
      StopSpec(details, names[1..]);
      assert forall j :: 1 <= j <= |names[1..]| ==> names[1..][j - 1] == names[j];
    }
  }

  /** Stores `value(k)` under each of `names`, in order. */
  function StoreAll(names: seq<Key>, value: Key -> string, fields: map<Key, string>): map<Key, string> {
    if names == [] then fields else StoreAll(names[1..], value, fields[names[0] := value(names[0])])
  }

  /** After storing, a key is present when it was before or was stored, and holds its stored
      value if it was stored and its old value otherwise. */
  lemma {:induction false} StoreAllAt(names: seq<Key>, value: Key -> string, fields: map<Key, string>, k: Key)
    ensures k in StoreAll(names, value, fields) <==> k in fields || k in names
    ensures k in StoreAll(names, value, fields) ==>
      StoreAll(names, value, fields)[k] == if k in names then value(k) else fields[k]
  {
    if names != [] {
      StoreAllAt(names[1..], value, fields[names[0] := value(names[0])], k);
      assert k in names <==> k == names[0] || k in names[1..];
    }
  }

  /** The loop over `field_mapping`: each readable field is stored stripped; the first one that
      raises ends the loop, and the fields stored before it stay (the `except` around it only
      logs). The flag says whether the loop ran to the end. */
  function ReadFields(details: Extract.Json, names: seq<Key>, fields: map<Key, string>)
    : (r: (map<Key, string>, bool))
    ensures r.1 <==> Stop(details, names) == |names|
  {
    var n := Stop(details, names);
    (StoreAll(names[..n], k => Stored(details, k), fields), n == |names|)
  }

  /** What a readable field is stored as. */
  function Stored(details: Extract.Json, k: Key): string {
    Text.Strip(FieldText(details, k))
  }

  /** A field the loop reaches before it stops holds the stripped answer text; every other field
      is as it was. */
  lemma ReadFieldsAt(details: Extract.Json, names: seq<Key>, fields: map<Key, string>, k: Key)
    ensures var out := ReadFields(details, names, fields).0;
      var read := names[..Stop(details, names)];
      && (k in out <==> k in fields || k in read)
      && (k in out ==> out[k] == if k in read then Stored(details, k) else fields[k])
  {
    StoreAllAt(names[..Stop(details, names)], k => Stored(details, k), fields, k);
  }

  /** The two date steps: a non-empty start date that `parse` (`_parse_date_string`)
      understands is stored as `Parsed Date` and rewritten `DD.MM.YYYY`; a non-empty end date
      that it understands is rewritten likewise. */
  function ReadDates(fields: map<Key, string>, parse: string -> Option<Dates.DateTime>): (r: EventRecord)
    requires StartDate in fields && EndDate in fields
    ensures r.fields.Keys == fields.Keys
    ensures r.parsedDate == if fields[StartDate] == "" then None else parse(fields[StartDate])
    ensures r.fields[StartDate] ==
      if r.parsedDate.Some? then Dates.Format(r.parsedDate.value) else fields[StartDate]
    ensures r.fields[EndDate] ==
      if fields[EndDate] == "" then "" else
      match parse(fields[EndDate])
      case Some(t) => Dates.Format(t)
      case None => fields[EndDate]
    ensures forall k :: k in fields && k != StartDate && k != EndDate ==> r.fields[k] == fields[k]
  {
    var start := fields[StartDate];
    var withStart :=
      if start == "" then EventRecord(fields, None)
      else match parse(start)
        case Some(t) => EventRecord(fields[StartDate := Dates.Format(t)], Some(t))
        case None => EventRecord(fields, None);
    var end := withStart.fields[EndDate];
    if end == "" then withStart
    else match parse(end)
      case Some(t) => withStart.(fields := withStart.fields[EndDate := Dates.Format(t)])
      case None => withStart
  }

  /** A re-serialised date has no surrounding whitespace. */
  lemma FormatTrimmed(t: Dates.DateTime)
    ensures Text.Trimmed(Dates.Format(t))
  {
    var s := Dates.Format(t);
    var y := Text.NatToString(t.date.year);
    assert s[0] == Dates.Pad2(t.date.day)[0];
    assert s[|s| - 1] == y[|y| - 1];
  }

  /** The date steps keep the record's keys and address, and every field free of surrounding
      whitespace. */
  lemma ReadDatesKeeps(fields: map<Key, string>, url: string, parse: string -> Option<Dates.DateTime>)
    requires forall k: Key :: k in fields
    requires fields[SourceUrl] == url
    requires forall k: Key :: k != SourceUrl ==> Text.Trimmed(fields[k])
    ensures var r := ReadDates(fields, parse);
      && WellFormed(r) && r.fields[SourceUrl] == url
      && (r.parsedDate.Some? ==> r.fields[StartDate] == Dates.Format(r.parsedDate.value))
      && forall k: Key :: k != SourceUrl ==> Text.Trimmed(r.fields[k])
  {
    var r := ReadDates(fields, parse);
    if r.parsedDate.Some? {
      FormatTrimmed(r.parsedDate.value);
    }
    match parse(fields[EndDate]) {
      case Some(t) => FormatTrimmed(t);
      case None =>
    }
  }

  // ---------------------------------------------------------------------------------------------
  // `parse`.

  /** What `parse` reads from a fetched page: the resolved title (`og:title`, `twitter:title`,
      `title` or the `<title>` element), the description meta tag, and the text of the main
      content container. */
  datatype Page = Page(title: string, description: string, text: string)

  /** What the prompt to the language model is built from. */
  datatype Prompt = Prompt(title: string, description: string, content: string, currentYear: int)

  /** The answer object the record is read from. */
  function Details(page: Page, llm: Prompt -> Option<string>, decode: string -> Option<Extract.Json>,
                   currentYear: int): Option<Extract.Json>
  {
    var content := Extract.RelevantContent(page.text, Extract.MaxContent);
    match llm(Prompt(page.title, page.description, content, currentYear))
    case None => None
    case Some(answer) => Some(Extract.ParseLlmResponse(decode, answer))
  }

  /** Storing trimmed values under keys other than `keep` keeps every key, the value at `keep`,
      and every other value trimmed. */
  lemma StoreAllTrimmed(names: seq<Key>, value: Key -> string, fields: map<Key, string>, keep: Key)
    requires keep !in names
    requires forall k: Key :: k in fields
    requires forall k: Key :: k != keep ==> Text.Trimmed(fields[k])
    requires forall k: Key :: Text.Trimmed(value(k))
    ensures var out := StoreAll(names, value, fields);
      && (forall k: Key :: k in out)
      && out[keep] == fields[keep]
      && forall k: Key :: k != keep ==> Text.Trimmed(out[k])
  {
    var out := StoreAll(names, value, fields);
    forall k: Key
      ensures k in out
      ensures k != keep ==> Text.Trimmed(out[k])
    {
      StoreAllAt(names, value, fields, k);
    }
    StoreAllAt(names, value, fields, keep);
  }

  /** Reading the answer into the blank record keeps every key and the address, and leaves every
      other field free of surrounding whitespace. */
  lemma AnswerRead(details: Extract.Json, url: string)
    ensures var fields := ReadFields(details, AnswerFields, Blank(url).fields).0;
      && (forall k: Key :: k in fields)
      && fields[SourceUrl] == url
      && forall k: Key :: k != SourceUrl ==> Text.Trimmed(fields[k])
  {
    var n := Stop(details, AnswerFields);
    var read := AnswerFields[..n];
    KeyFacts();
    assert SourceUrl !in read by {
      assert forall k :: k in read ==> k in AnswerFields;
    }
    StoreAllTrimmed(read, k => Stored(details, k), Blank(url).fields, SourceUrl);
  }

  /** The part of `parse` inside its `try`, once the model has answered with `details`. */
  function ReadAnswer(url: string, details: Extract.Json, parse: string -> Option<Dates.DateTime>): (r: EventRecord)
    ensures WellFormed(r) && r.fields[SourceUrl] == url
    ensures r.parsedDate.Some? ==> r.fields[StartDate] == Dates.Format(r.parsedDate.value)
    ensures forall k: Key :: k != SourceUrl ==> Text.Trimmed(r.fields[k])
  {
    var read := ReadFields(details, AnswerFields, Blank(url).fields);
    AnswerRead(details, url);
    if !read.1 then EventRecord(read.0, None)
    else
      ReadDatesKeeps(read.0, url, parse);
      ReadDates(read.0, parse)
  }

  /** `_parse_date_string`, with the year it assumes for a date written without one. */
  function DateReader(currentYear: int, fromIso: string -> Option<Dates.DateTime>): string -> Option<Dates.DateTime> {
    s => Dates.ParseDate(s, currentYear, fromIso)
  }

  /** `EventParser.parse`. `page` is `None` when the page could not be fetched; `llm` is `None`
      when the model call raises; `decode` is `json.loads`; `fromIso` is `datetime.fromisoformat`. */
  function Parse(url: string, page: Option<Page>, llm: Prompt -> Option<string>,
                 decode: string -> Option<Extract.Json>, fromIso: string -> Option<Dates.DateTime>,
                 currentYear: int): (r: EventRecord)
    ensures SourceUrl in r.fields && r.fields[SourceUrl] == url
  {
    if page.None? || !Titles.IsValidTitle(page.value.title) then Blank(url)
    else
      match Details(page.value, llm, decode, currentYear)
      case None => Blank(url)
      case Some(details) => ReadAnswer(url, details, DateReader(currentYear, fromIso))
  }

  /** Every record `parse` returns has every field and carries its address; a page that cannot be
      fetched or has no valid title gives the blank record; a parsed start date is always shown
      re-serialised; and no field has surrounding whitespace. */
  lemma ParseShape(url: string, page: Option<Page>, llm: Prompt -> Option<string>,
                   decode: string -> Option<Extract.Json>, fromIso: string -> Option<Dates.DateTime>,
                   currentYear: int)
    ensures var r := Parse(url, page, llm, decode, fromIso, currentYear);
      && WellFormed(r)
      && (page.None? || !Titles.IsValidTitle(page.value.title) ==> r == Blank(url))
      && (r.parsedDate.Some? ==> r.fields[StartDate] == Dates.Format(r.parsedDate.value))
      && forall k: Key :: k != SourceUrl ==> Text.Trimmed(r.fields[k])
  {
  }

  /** The fields the loop reaches before the first unreadable one hold the stripped answer text
      and the rest stay empty. */
  lemma ReadAnswerField(url: string, details: Extract.Json, parse: string -> Option<Dates.DateTime>, j: nat)
    requires j < |AnswerFields| && AnswerFields[j] != StartDate && AnswerFields[j] != EndDate
    ensures ReadAnswer(url, details, parse).fields[AnswerFields[j]]
      == if j < Stop(details, AnswerFields) then Stored(details, AnswerFields[j]) else ""
  {
    var read := ReadFields(details, AnswerFields, Blank(url).fields);
    FieldRead(url, details, j);
    AnswerRead(details, url);
    if read.1 {
      ReadDatesKeeps(read.0, url, parse);
    }
  }

  /** The loop over the answer, before the dates are read. */
  lemma FieldRead(url: string, details: Extract.Json, j: nat)
    requires j < |AnswerFields|
    ensures var read := ReadFields(details, AnswerFields, Blank(url).fields).0;
      AnswerFields[j] in read
      && read[AnswerFields[j]] == if j < Stop(details, AnswerFields) then Stored(details, AnswerFields[j]) else ""
  {
    var k := AnswerFields[j];
    var n := Stop(details, AnswerFields);
    var blank := Blank(url).fields;
    ReadFieldsAt(details, AnswerFields, blank, k);
    if j < n {
      assert AnswerFields[..n][j] == k;
    } else {
      AnswerFieldsDistinct(n, j);
    }
  }

  /** The start date is parsed exactly when every field was read and the start date is not
      empty. */
  lemma ReadAnswerDate(url: string, details: Extract.Json, parse: string -> Option<Dates.DateTime>)
    ensures ReadAnswer(url, details, parse).parsedDate ==
      if Stop(details, AnswerFields) == |AnswerFields| && Stored(details, StartDate) != "" then
        parse(Stored(details, StartDate))
      else None
  {
    var read := ReadFields(details, AnswerFields, Blank(url).fields);
    AnswerRead(details, url);
    if read.1 {
      StartDateRead(details, url);
    }
  }

  /** When every field was read, the start date holds the stripped answer text. */
  lemma StartDateRead(details: Extract.Json, url: string)
    requires Stop(details, AnswerFields) == |AnswerFields|
    ensures var fields := ReadFields(details, AnswerFields, Blank(url).fields).0;
      StartDate in fields && fields[StartDate] == Stored(details, StartDate)
  {
    KeyFacts();
    AllRead(details, AnswerFields, Blank(url).fields, StartDate);
  }

  /** When the loop runs to the end, every name holds its stripped answer text. */
  lemma AllRead(details: Extract.Json, names: seq<Key>, fields: map<Key, string>, k: Key)
    requires Stop(details, names) == |names| && k in names
    ensures var out := ReadFields(details, names, fields).0;
      k in out && out[k] == Stored(details, k)
  {
    ReadFieldsAt(details, names, fields, k);
    assert names[..|names|] == names;
  }

  /** No field is asked for twice: a field after the stop was not read. */
  lemma AnswerFieldsDistinct(n: nat, j: nat)
    requires n <= j < |AnswerFields|
    ensures AnswerFields[j] !in AnswerFields[..n]
  {
    assert forall i, i' :: 0 <= i < i' < |AnswerFields| ==> AnswerFields[i] != AnswerFields[i'];
  }

  /** An answer that is not an object, or no answer at all, leaves the blank record. */
  lemma ParseWithoutObject(url: string, page: Option<Page>, llm: Prompt -> Option<string>,
                           decode: string -> Option<Extract.Json>, fromIso: string -> Option<Dates.DateTime>,
                           currentYear: int)
    requires page.Some?
    requires var d := Details(page.value, llm, decode, currentYear); d.None? || !d.value.JObject?
    ensures Parse(url, page, llm, decode, fromIso, currentYear) == Blank(url)
  {
  }

  // ---------------------------------------------------------------------------------------------
  // `parse_events`.

  /** The test `parse_events` puts each record through. `today` is `datetime.now()`, which has no
      time zone: a start date that carries one makes `parsed_date < today` raise, and the `except`
      around the record skips it. An event dated today is at midnight, before `today`, and is
      skipped too. */
  predicate Keep(r: EventRecord, today: Dates.DateTime) {
    && EventName in r.fields
    && r.fields[EventName] != ""
    && Titles.IsValidTitle(r.fields[EventName])
    && match r.parsedDate
       case None => true
       case Some(d) => !d.aware && !Dates.Before(d, today)
  }

  /** The records kept, in order. */
  function Kept(records: seq<EventRecord>, today: Dates.DateTime): (r: seq<EventRecord>)
    ensures |r| <= |records|
  {
    if records == [] then []
    else (if Keep(records[0], today) then [records[0]] else []) + Kept(records[1..], today)
  }

  /** The links a new `DuckDuckGoSearch` returns for the query. */
  function SearchUrls(hash: string -> string, query: string, now: int, storedAt: int,
                      response: Option<Search.SearchResponse>): seq<string>
  {
    Search.Search(Search.Fresh(), hash, query, now, storedAt, response).1
  }

  /** Every link parsed in turn. */
  function Outcomes(urls: seq<string>, pages: string -> Option<Page>, llm: Prompt -> Option<string>,
                    decode: string -> Option<Extract.Json>, fromIso: string -> Option<Dates.DateTime>,
                    currentYear: int): (r: seq<EventRecord>)
    ensures |r| == |urls|
    ensures forall i :: 0 <= i < |urls| ==> SourceUrl in r[i].fields && r[i].fields[SourceUrl] == urls[i]
  {
    if urls == [] then []
    else
      [Parse(urls[0], pages(urls[0]), llm, decode, fromIso, currentYear)]
      + Outcomes(urls[1..], pages, llm, decode, fromIso, currentYear)
  }

  /** The filter loop of `parse_events` over the parsed records. */
  method KeepEvents(records: seq<EventRecord>, today: Dates.DateTime) returns (events: seq<EventRecord>)
    ensures events == Kept(records, today)
  {
    events := [];
    var i := 0;
    while i < |records|
      invariant 0 <= i <= |records|
      invariant Kept(records, today) == events + Kept(records[i..], today)
    {
      var record := records[i];
      assert records[i..] == [record] + records[i + 1..];
      KeptCons(record, records[i + 1..], today);
      if Keep(record, today) {
        events := events + [record];
      }
      i := i + 1;
    }
    assert records[i..] == [];
  }

  /** `parse_events`: search with a new searcher, parse every link in turn and keep the records
      that pass `Keep`. `pages` stands for fetching a page and `llm` for the model call. */
  method ParseEvents(hash: string -> string, query: string, now: int, storedAt: int,
                     response: Option<Search.SearchResponse>, pages: string -> Option<Page>,
                     llm: Prompt -> Option<string>, decode: string -> Option<Extract.Json>,
                     fromIso: string -> Option<Dates.DateTime>, currentYear: int, today: Dates.DateTime)
    returns (events: seq<EventRecord>)
    ensures events == Kept(Outcomes(SearchUrls(hash, query, now, storedAt, response), pages, llm, decode, fromIso, currentYear), today)
    ensures |events| <= 10
  {
    var urls := SearchUrls(hash, query, now, storedAt, response);
    SearchUrlsBound(hash, query, now, storedAt, response);
    var records := Outcomes(urls, pages, llm, decode, fromIso, currentYear);
    events := KeepEvents(records, today);
  }

  lemma KeptCons(r: EventRecord, rest: seq<EventRecord>, today: Dates.DateTime)
    ensures Kept([r] + rest, today) == (if Keep(r, today) then [r] else []) + Kept(rest, today)
  {
    assert ([r] + rest)[1..] == rest;
  }

  /** A new searcher answers with at most ten links. */
  lemma SearchUrlsBound(hash: string -> string, query: string, now: int, storedAt: int,
                        response: Option<Search.SearchResponse>)
    ensures |SearchUrls(hash, query, now, storedAt, response)| <= 10
  {
    Search.FreshMisses(Search.CacheKey(hash, query), now);
  }

  /** A record is kept exactly when it is one of the records and passes the filter. */
  lemma {:induction false} KeptSpec(records: seq<EventRecord>, today: Dates.DateTime)
    ensures forall r :: r in Kept(records, today) <==> r in records && Keep(r, today)
  {
    if records != [] {
      KeptSpec(records[1..], today);
      KeptCons(records[0], records[1..], today);
      assert records == [records[0]] + records[1..];
    }
  }

  /** An event whose start date was read from a date without a time is at midnight, and
      `parse_events` runs after midnight: an event happening today is dropped as past. */
  lemma SameDayRejected(r: EventRecord, today: Dates.DateTime)
    requires r.parsedDate.Some? && r.parsedDate.value.date == today.date
    requires r.parsedDate.value.micros == 0 && today.micros > 0
    ensures !Keep(r, today)
  {
  }

  /** The filter as it is evidently meant: an event dated today or later is kept, whatever the
      time of day the filter runs at. Only the date of the start is compared with today's date. */
  predicate KeepFromToday(r: EventRecord, today: Dates.DateTime) {
    && EventName in r.fields
    && r.fields[EventName] != ""
    && Titles.IsValidTitle(r.fields[EventName])
    && match r.parsedDate
       case None => true
       case Some(d) => !d.aware && !Dates.DateBefore(d.date, today.date)
  }

  /** The corrected filter keeps every record the code keeps, and the two differ exactly on the
      events that start today at an earlier time than the filter runs: those the code drops. */
  lemma KeepFromTodayExtends(r: EventRecord, today: Dates.DateTime)
    ensures Keep(r, today) ==> KeepFromToday(r, today)
    ensures KeepFromToday(r, today) && !Keep(r, today) <==>
      && KeepFromToday(r, today)
      && r.parsedDate.Some? && r.parsedDate.value.date == today.date
      && r.parsedDate.value.micros < today.micros
  {
    if r.parsedDate.Some? {
      Dates.DateOrder(r.parsedDate.value.date, today.date);
    }
  }

  /** With the corrected filter an event of today with a valid name and no time zone is kept. */
  lemma SameDayKeptFromToday(r: EventRecord, today: Dates.DateTime)
    requires EventName in r.fields && Titles.IsValidTitle(r.fields[EventName])
    requires r.parsedDate.Some? && !r.parsedDate.value.aware && r.parsedDate.value.date == today.date
    ensures KeepFromToday(r, today)
  {
    Dates.DateOrder(today.date, today.date);
  }

  /** A record with a valid name is kept when it has no start date or when its start date, without
      a time zone, falls on a later day than today; a start date with a time zone always drops it. */
  lemma KeepByDate(r: EventRecord, today: Dates.DateTime)
    requires EventName in r.fields && Titles.IsValidTitle(r.fields[EventName])
    ensures r.parsedDate.None? ==> Keep(r, today)
    ensures r.parsedDate.Some? && !r.parsedDate.value.aware && Dates.DateBefore(today.date, r.parsedDate.value.date)
      ==> Keep(r, today)
    ensures r.parsedDate.Some? && r.parsedDate.value.aware ==> !Keep(r, today)
  {
  }

  /** Every event `parse_events` returns passed the filter and comes from a distinct link of a
      Russian domain that the search returned. */
  lemma EventsFromSearch(hash: string -> string, query: string, now: int, storedAt: int,
                         response: Option<Search.SearchResponse>, pages: string -> Option<Page>,
                         llm: Prompt -> Option<string>, decode: string -> Option<Extract.Json>,
                         fromIso: string -> Option<Dates.DateTime>, currentYear: int, today: Dates.DateTime)
    ensures Search.Distinct(SearchUrls(hash, query, now, storedAt, response))
    ensures var urls := SearchUrls(hash, query, now, storedAt, response);
      forall e :: e in Kept(Outcomes(urls, pages, llm, decode, fromIso, currentYear), today) ==>
        && Keep(e, today)
        && SourceUrl in e.fields
        && e.fields[SourceUrl] in urls
        && Urls.IsRuDomain(e.fields[SourceUrl])
  {
    var urls := SearchUrls(hash, query, now, storedAt, response);
    var records := Outcomes(urls, pages, llm, decode, fromIso, currentYear);
    Search.FreshMisses(Search.CacheKey(hash, query), now);
    if response.Some? {
      Search.LiveResultsSpec(response.value);
    }
    KeptSpec(records, today);
    forall e | e in Kept(records, today)
      ensures SourceUrl in e.fields && e.fields[SourceUrl] in urls
    {
      var i :| 0 <= i < |records| && records[i] == e;
    }
  }

  // ---------------------------------------------------------------------------------------------
  // `GET_EVENTS`.

  /** What a short query is prefixed with. */
  const CityPrefix: string := "IT-мероприятия в Санкт-Петербурге для "

  /** A query of fewer than three space-separated pieces is taken to name an audience and is
      widened to IT events in Saint Petersburg for it. */
  function RewriteQuery(q: string): string {
    if |Text.Split(q, ' ')| < 3 then CityPrefix + q else q
  }

  lemma CountAbsent(s: string, c: char)
    requires c !in s
    ensures Text.Count(s, c) == 0
  {
  }

  /** A word without spaces and one space add one space to the count. */
  lemma WordAndSpace(p: string, w: string)
    requires ' ' !in w
    ensures Text.Count(p + w + " ", ' ') == Text.Count(p, ' ') + 1
  {
    CountAbsent(w, ' ');
    Text.CountAppend(p, w, ' ');
    Text.CountAppend(p + w, " ", ' ');
    assert " "[1..] == "";
  }

  lemma PrefixWords()
    ensures CityPrefix == "IT-мероприятия" + " " + "в" + " " + "Санкт-Петербурге" + " " + "для" + " "
  {
  }

  /** Four words, each followed by one space, hold four spaces. */
  lemma FourWords(a: string, b: string, c: string, d: string)
    requires ' ' !in a && ' ' !in b && ' ' !in c && ' ' !in d
    ensures Text.Count(a + " " + b + " " + c + " " + d + " ", ' ') == 4
  {
    WordAndSpace("", a);
    assert "" + a + " " == a + " ";
    WordAndSpace(a + " ", b);
    WordAndSpace(a + " " + b + " ", c);
    WordAndSpace(a + " " + b + " " + c + " ", d);
  }

  lemma PrefixSpaces()
    ensures Text.Count(CityPrefix, ' ') == 4
  {
    PrefixWords();
    FourWords("IT-мероприятия", "в", "Санкт-Петербурге", "для");
  }

  /** The query is widened exactly when it holds fewer than two spaces; otherwise it is kept. */
  lemma RewriteQuerySpec(q: string)
    ensures RewriteQuery(q) == CityPrefix + q <==> Text.Count(q, ' ') < 2
    ensures RewriteQuery(q) == q <==> Text.Count(q, ' ') >= 2
  {
    Text.SplitJoin(q, ' ');
    assert |CityPrefix + q| > |q|;
  }

  /** A widened query is long enough to be kept as it is. */
  lemma RewriteQueryIdempotent(q: string)
    ensures RewriteQuery(RewriteQuery(q)) == RewriteQuery(q)
  {
    RewriteQuerySpec(q);
    var r := RewriteQuery(q);
    if Text.Count(q, ' ') < 2 {
      PrefixSpaces();
      Text.CountAppend(CityPrefix, q, ' ');
    }
    RewriteQuerySpec(r);
  }

  /** `GET_EVENTS`: widen a short query, then run `parse_events` on it. */
  method GetEvents(hash: string -> string, query: string, now: int, storedAt: int,
                   response: Option<Search.SearchResponse>, pages: string -> Option<Page>,
                   llm: Prompt -> Option<string>, decode: string -> Option<Extract.Json>,
                   fromIso: string -> Option<Dates.DateTime>, currentYear: int, today: Dates.DateTime)
    returns (events: seq<EventRecord>)
    ensures var q := if Text.Count(query, ' ') < 2 then CityPrefix + query else query;
      events == Kept(Outcomes(SearchUrls(hash, q, now, storedAt, response), pages, llm, decode, fromIso, currentYear), today)
    ensures |events| <= 10
  {
    RewriteQuerySpec(query);
    events := ParseEvents(hash, RewriteQuery(query), now, storedAt, response, pages, llm, decode, fromIso,
                          currentYear, today);
  }
}
