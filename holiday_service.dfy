/** HolidayService.checkHoliday: parse the date, fetch the provider's holiday
    list for that year and country, and report the first record whose date
    is the requested date. The HTTP call itself is not modelled: the provider
    is a function from the request it would receive to what the call produced. */
module HolidayService {
  import opened Dto
  import opened IsoDate

  const InvalidDateMessage := "Invalid date format. Please use YYYY-MM-DD."

  /** The provider call `GET <base>/{year}/{countryCode}`, by its path segments. */
  datatype FetchRequest = FetchRequest(year: string, countryCode: string)

  /** What `restTemplate.getForObject` produced for a request. */
  datatype FetchOutcome =
    | Body(holidays: seq<ProviderHoliday>)  // a non-null array of records
    | NullBody                              // the call returned null
    | HttpClientError(status: int)          // HttpClientErrorException (a 4xx status)
    | RestClientError                       // any other RestClientException

  /** What `checkHoliday` returned or threw. */
  datatype ServiceOutcome =
    | Returned(check: HolidayCheck)
    | IllegalArgument(message: string)      // IllegalArgumentException
    | NullPointer                           // NullPointerException from a record without a date

  /** getHolidaysFromApi after the call: every failure reads as an empty list. */
  function HolidaysFromApi(outcome: FetchOutcome): (hs: seq<ProviderHoliday>)
    ensures outcome.Body? ==> hs == outcome.holidays
    ensures !outcome.Body? ==> hs == []
  {
    match outcome
    case Body(holidays) => holidays
    case NullBody => []
    case HttpClientError(_) => []
    case RestClientError => []
  }

  /** The result of `stream().filter(h -> h.getDate().equals(target)).findFirst()`. */
  datatype Search = Found(holiday: ProviderHoliday) | NotFound | NullDateReached

  /** The filter reads a record's date and rejects it without throwing. */
  predicate PassesOver(h: ProviderHoliday, target: string) {
    h.date.Some? && h.date.value != target
  }

  /** The lazy stream search: records are examined in list order and the scan
      stops at the first record that matches or whose date is null. */
  function FindFirst(hs: seq<ProviderHoliday>, target: string): (r: Search)
    ensures r.Found? ==> r.holiday in hs && r.holiday.date == Some(target)
    ensures r.NotFound? <==> forall h | h in hs :: PassesOver(h, target)
    ensures r.NullDateReached? ==> exists h | h in hs :: h.date.None?
  {
    if hs == [] then NotFound
    else
      assert hs[0] in hs;
      match hs[0].date
      case None => NullDateReached
      case Some(d) =>
        if d == target then Found(hs[0])
        else
          var r := FindFirst(hs[1..], target);
          assert forall h | h in hs :: h == hs[0] || h in hs[1..];
          r
  }

  /** A match preceded only by dated non-matching records is what the search returns. */
  lemma {:induction false} FindFirstReturnsFirstMatch(hs: seq<ProviderHoliday>, target: string, i: nat)
    requires i < |hs| && hs[i].date == Some(target)
    requires forall j | 0 <= j < i :: PassesOver(hs[j], target)
    ensures FindFirst(hs, target) == Found(hs[i])
  {
    if i > 0 {
      assert PassesOver(hs[0], target);
      FindFirstReturnsFirstMatch(hs[1..], target, i - 1);
    }
  }

  /** A null date reached before any match makes the filter throw. */
  lemma {:induction false} FindFirstStopsAtNullDate(hs: seq<ProviderHoliday>, target: string, i: nat)
    requires i < |hs| && hs[i].date.None?
    requires forall j | 0 <= j < i :: PassesOver(hs[j], target)
    ensures FindFirst(hs, target) == NullDateReached
  {
    if i > 0 {
      assert PassesOver(hs[0], target);
      FindFirstStopsAtNullDate(hs[1..], target, i - 1);
    }
  }

  /** Where the scan stops, and why: every outcome of the search is explained by
      the index of the first record that does not pass. */
  lemma {:induction false} FindFirstStop(hs: seq<ProviderHoliday>, target: string) returns (i: nat)
    ensures i <= |hs| && forall j | 0 <= j < i :: PassesOver(hs[j], target)
    ensures FindFirst(hs, target).Found? ==> i < |hs| && hs[i].date == Some(target) && FindFirst(hs, target).holiday == hs[i]
    ensures FindFirst(hs, target).NullDateReached? ==> i < |hs| && hs[i].date.None?
    ensures FindFirst(hs, target).NotFound? ==> i == |hs|
  {
    if hs == [] || !PassesOver(hs[0], target) {
      i := 0;
    } else {
      var k := FindFirstStop(hs[1..], target);
      i := k + 1;
    }
  }

  /** Once a match is found, records after it are never examined. */
  lemma FindFirstIgnoresLaterRecords(hs: seq<ProviderHoliday>, rest: seq<ProviderHoliday>, target: string)
    requires FindFirst(hs, target).Found?
    ensures FindFirst(hs + rest, target) == FindFirst(hs, target)
  {
    var i := FindFirstStop(hs, target);
    FindFirstReturnsFirstMatch(hs + rest, target, i);
  }

  /** The records the service searches for a parsed date: the provider is
      asked once, for the year as `String.valueOf` writes it and the country
      as given, and a failed call reads as no records. */
  function YearHolidays(date: Date, countryCode: string, provider: FetchRequest -> FetchOutcome): (hs: seq<ProviderHoliday>)
    ensures var answer := provider(FetchRequest(YearString(date.year), countryCode));
      && (answer.Body? ==> hs == answer.holidays)
      && (!answer.Body? ==> hs == [])
  {
    HolidaysFromApi(provider(FetchRequest(YearString(date.year), countryCode)))
  }

  /** HolidayService.checkHoliday(dateString, countryCode), with the provider
      standing for the HTTP call. */
  function CheckHoliday(dateString: string, countryCode: string, provider: FetchRequest -> FetchOutcome): (r: ServiceOutcome)
    ensures r.IllegalArgument? <==> ParseIsoLocalDate(dateString).None?
    ensures r.IllegalArgument? ==> r.message == InvalidDateMessage
    ensures r.Returned? ==> r.check.date == dateString && r.check.countryCode == countryCode
    ensures r.Returned? && !r.check.isHoliday ==> r.check.holidayName.None?
    ensures r.Returned? && r.check.isHoliday ==>
      exists h | h in YearHolidays(ParseIsoLocalDate(dateString).value, countryCode, provider) ::
        h.date == Some(dateString) && r.check.holidayName == h.name
  {
    match ParseIsoLocalDate(dateString)
    case None => IllegalArgument(InvalidDateMessage)
    case Some(date) =>
      match FindFirst(YearHolidays(date, countryCode, provider), dateString)
      case Found(h) => Returned(HolidayCheck(dateString, countryCode, true, h.name))
      case NotFound => Returned(HolidayCheck(dateString, countryCode, false, None))
      case NullDateReached => NullPointer
  }

  /** The outcome depends on the provider only through its answer to the one
      request for the parsed year (as `String.valueOf` writes it) and the
      given country. */
  lemma FetchKeyedByParsedYear(dateString: string, countryCode: string, p1: FetchRequest -> FetchOutcome, p2: FetchRequest -> FetchOutcome)
    requires ParseIsoLocalDate(dateString).Some?
    requires var req := FetchRequest(YearString(ParseIsoLocalDate(dateString).value.year), countryCode);
      p1(req) == p2(req)
    ensures CheckHoliday(dateString, countryCode, p1) == CheckHoliday(dateString, countryCode, p2)
  {
  }

  /** An invalid date is rejected whatever the provider would have answered. */
  lemma InvalidDateNeverFetches(dateString: string, countryCode: string, p1: FetchRequest -> FetchOutcome, p2: FetchRequest -> FetchOutcome)
    requires ParseIsoLocalDate(dateString).None?
    ensures CheckHoliday(dateString, countryCode, p1) == CheckHoliday(dateString, countryCode, p2)
    ensures CheckHoliday(dateString, countryCode, p1) == IllegalArgument(InvalidDateMessage)
  {
  }

  /** A null body, an HTTP client error or any other client failure reads as
      "not a holiday", never as an error. */
  lemma FetchFailureIsNotHoliday(dateString: string, countryCode: string, provider: FetchRequest -> FetchOutcome)
    requires ParseIsoLocalDate(dateString).Some?
    requires !provider(FetchRequest(YearString(ParseIsoLocalDate(dateString).value.year), countryCode)).Body?
    ensures CheckHoliday(dateString, countryCode, provider) == Returned(HolidayCheck(dateString, countryCode, false, None))
  {
  }

  /** For a valid date, the answer is a holiday exactly when some record
      matches and every record before it has a date that does not match. */
  lemma IsHolidayIffFirstStopMatches(dateString: string, countryCode: string, provider: FetchRequest -> FetchOutcome)
    requires ParseIsoLocalDate(dateString).Some?
    ensures var hs := YearHolidays(ParseIsoLocalDate(dateString).value, countryCode, provider);
      var r := CheckHoliday(dateString, countryCode, provider);
      r.Returned? && r.check.isHoliday <==>
        exists i | 0 <= i < |hs| :: hs[i].date == Some(dateString) && forall j | 0 <= j < i :: PassesOver(hs[j], dateString)
  {
    var hs := YearHolidays(ParseIsoLocalDate(dateString).value, countryCode, provider);
    var k := FindFirstStop(hs, dateString);
    if exists i | 0 <= i < |hs| :: hs[i].date == Some(dateString) && forall j | 0 <= j < i :: PassesOver(hs[j], dateString) {
      var i :| 0 <= i < |hs| && hs[i].date == Some(dateString) && forall j | 0 <= j < i :: PassesOver(hs[j], dateString);
      FindFirstReturnsFirstMatch(hs, dateString, i);
    }
  }

  /** The name reported is the `name` of the first matching record. */
  lemma HolidayNameIsFirstMatchName(dateString: string, countryCode: string, provider: FetchRequest -> FetchOutcome, i: nat)
    requires ParseIsoLocalDate(dateString).Some?
    requires var hs := YearHolidays(ParseIsoLocalDate(dateString).value, countryCode, provider);
      i < |hs| && hs[i].date == Some(dateString) && forall j | 0 <= j < i :: PassesOver(hs[j], dateString)
    ensures CheckHoliday(dateString, countryCode, provider) ==
      Returned(HolidayCheck(dateString, countryCode, true, YearHolidays(ParseIsoLocalDate(dateString).value, countryCode, provider)[i].name))
  {
    FindFirstReturnsFirstMatch(YearHolidays(ParseIsoLocalDate(dateString).value, countryCode, provider), dateString, i);
  }

  /** For a valid date, the service throws NullPointerException exactly when
      a record without a date comes before any match. */
  lemma NullPointerIffNullDateFirst(dateString: string, countryCode: string, provider: FetchRequest -> FetchOutcome)
    requires ParseIsoLocalDate(dateString).Some?
    ensures var hs := YearHolidays(ParseIsoLocalDate(dateString).value, countryCode, provider);
      CheckHoliday(dateString, countryCode, provider) == NullPointer <==>
        exists i | 0 <= i < |hs| :: hs[i].date.None? && forall j | 0 <= j < i :: PassesOver(hs[j], dateString)
  {
    var hs := YearHolidays(ParseIsoLocalDate(dateString).value, countryCode, provider);
    var k := FindFirstStop(hs, dateString);
    if exists i | 0 <= i < |hs| :: hs[i].date.None? && forall j | 0 <= j < i :: PassesOver(hs[j], dateString) {
      var i :| 0 <= i < |hs| && hs[i].date.None? && forall j | 0 <= j < i :: PassesOver(hs[j], dateString);
      FindFirstStopsAtNullDate(hs, dateString, i);
    }
  }

  /** When every fetched record has a date, the answer is a holiday exactly
      when some record's date string-equals the requested one, and the
      service never throws. */
  lemma IsHolidayIffSomeRecordMatches(dateString: string, countryCode: string, provider: FetchRequest -> FetchOutcome)
    requires ParseIsoLocalDate(dateString).Some?
    requires forall h | h in YearHolidays(ParseIsoLocalDate(dateString).value, countryCode, provider) :: h.date.Some?
    ensures var r := CheckHoliday(dateString, countryCode, provider);
      && r.Returned?
      && (r.check.isHoliday <==>
            exists h | h in YearHolidays(ParseIsoLocalDate(dateString).value, countryCode, provider) :: h.date == Some(dateString))
  {
  }

  /** Only each record's `date` and `name` matter: lists that agree on those
      give the same outcome whatever their `type`, `localName` or `countryCode`. */
  lemma OnlyDateAndNameMatter(dateString: string, countryCode: string, p1: FetchRequest -> FetchOutcome, p2: FetchRequest -> FetchOutcome)
    requires ParseIsoLocalDate(dateString).Some?
    requires var hs1 := YearHolidays(ParseIsoLocalDate(dateString).value, countryCode, p1);
      var hs2 := YearHolidays(ParseIsoLocalDate(dateString).value, countryCode, p2);
      |hs1| == |hs2| && forall i | 0 <= i < |hs1| :: hs1[i].date == hs2[i].date && hs1[i].name == hs2[i].name
    ensures CheckHoliday(dateString, countryCode, p1) == CheckHoliday(dateString, countryCode, p2)
  {
    var hs1 := YearHolidays(ParseIsoLocalDate(dateString).value, countryCode, p1);
    var hs2 := YearHolidays(ParseIsoLocalDate(dateString).value, countryCode, p2);
    var k := FindFirstStop(hs1, dateString);
    assert forall j | 0 <= j < k :: PassesOver(hs2[j], dateString);
    if k < |hs1| {
      if hs1[k].date.None? {
        FindFirstStopsAtNullDate(hs2, dateString, k);
      } else {
        FindFirstReturnsFirstMatch(hs2, dateString, k);
      }
    } else {
      assert forall h | h in hs2 :: PassesOver(h, dateString);
    }
  }

  /** The holiday a search stops at keeps its place when more records follow:
      appending to the provider's list cannot change a positive answer. */
  lemma LaterRecordsNeverExamined(dateString: string, countryCode: string, p1: FetchRequest -> FetchOutcome, p2: FetchRequest -> FetchOutcome, rest: seq<ProviderHoliday>)
    requires ParseIsoLocalDate(dateString).Some?
    requires var hs1 := YearHolidays(ParseIsoLocalDate(dateString).value, countryCode, p1);
      YearHolidays(ParseIsoLocalDate(dateString).value, countryCode, p2) == hs1 + rest
    requires var r := CheckHoliday(dateString, countryCode, p1); r.Returned? && r.check.isHoliday
    ensures CheckHoliday(dateString, countryCode, p2) == CheckHoliday(dateString, countryCode, p1)
  {
    var hs1 := YearHolidays(ParseIsoLocalDate(dateString).value, countryCode, p1);
    FindFirstIgnoresLaterRecords(hs1, rest, dateString);
  }
}
