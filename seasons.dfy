/** `get_season` of process_new_data.py: the season of a `Month` cell. */
module Seasons {
  import opened Wrappers
  import opened PyStr
  import opened Frames

  datatype Season = Winter | Spring | Summer | Fall

  /** The label written into the `Season` column. */
  function SeasonName(s: Season): string {
    match s
    case Winter => "Winter"
    case Spring => "Spring"
    case Summer => "Summer"
    case Fall => "Fall"
  }

  /** The six tokens of each season, as the script lists them: three month names and their numbers. */
  const WinterTokens: seq<string> := ["december", "january", "february", "12", "1", "2"]
  const SpringTokens: seq<string> := ["march", "april", "may", "3", "4", "5"]
  const SummerTokens: seq<string> := ["june", "july", "august", "6", "7", "8"]
  const FallTokens: seq<string> := ["september", "october", "november", "9", "10", "11"]

  /** The cell's text as the lookup sees it: `str(month).strip().lower()`. */
  function MonthKey(m: string): string {
    Lower(Strip(m))
  }

  /** `get_season(month)`: the first season whose token list holds the key, tried in the order Winter, Spring, Summer, Fall. */
  function GetSeason(month: Cell): Option<Season> {
    match month
    case None => None
    case Some(m) => LookupSeason(MonthKey(m))
  }

  /** The lookup of a normalised key. */
  function LookupSeason(k: string): Option<Season> {
    if k in WinterTokens then Some(Winter)
    else if k in SpringTokens then Some(Spring)
    else if k in SummerTokens then Some(Summer)
    else if k in FallTokens then Some(Fall)
    else None
  }

  /** The calendar month a key names, by English name or by number without leading zero. */
  function MonthNumber(k: string): Option<int> {
    if k == "january" || k == "1" then Some(1)
    else if k == "february" || k == "2" then Some(2)
    else if k == "march" || k == "3" then Some(3)
    else if k == "april" || k == "4" then Some(4)
    else if k == "may" || k == "5" then Some(5)
    else if k == "june" || k == "6" then Some(6)
    else if k == "july" || k == "7" then Some(7)
    else if k == "august" || k == "8" then Some(8)
    else if k == "september" || k == "9" then Some(9)
    else if k == "october" || k == "10" then Some(10)
    else if k == "november" || k == "11" then Some(11)
    else if k == "december" || k == "12" then Some(12)
    else None
  }

  /** Meteorological seasons of the northern hemisphere: December to February is winter, and so on in threes. */
  function SeasonOfMonth(n: int): Season
    requires 1 <= n <= 12
  {
    var q := (n % 12) / 3;
    if q == 0 then Winter else if q == 1 then Spring else if q == 2 then Summer else Fall
  }

  /** The season the calendar gives a key, if it names a month. */
  function CalendarSeason(k: string): Option<Season> {
    match MonthNumber(k)
    case None => None
    case Some(n) => if 1 <= n <= 12 then Some(SeasonOfMonth(n)) else None
  }

  /** The winter tokens are exactly the keys of December, January and February. */
  lemma WinterIsCalendar(k: string)
    ensures k in WinterTokens <==> CalendarSeason(k) == Some(Winter)
  {
    if CalendarSeason(k) == Some(Winter) {
      WinterFromCalendar(k);
    }
  }

  /** A key the calendar puts in winter is one of its tokens. */
  lemma WinterFromCalendar(k: string)
    requires CalendarSeason(k) == Some(Winter)
    ensures k in WinterTokens
  {
  }

  /** The spring tokens are exactly the keys of March, April and May. */
  lemma SpringIsCalendar(k: string)
    ensures k in SpringTokens <==> CalendarSeason(k) == Some(Spring)
  {
    if CalendarSeason(k) == Some(Spring) {
      SpringFromCalendar(k);
    }
  }

  /** A key the calendar puts in spring is one of its tokens. */
  lemma SpringFromCalendar(k: string)
    requires CalendarSeason(k) == Some(Spring)
    ensures k in SpringTokens
  {
  }

  /** The summer tokens are exactly the keys of June, July and August. */
  lemma SummerIsCalendar(k: string)
    ensures k in SummerTokens <==> CalendarSeason(k) == Some(Summer)
  {
    if CalendarSeason(k) == Some(Summer) {
      SummerFromCalendar(k);
    }
  }

  /** A key the calendar puts in summer is one of its tokens. */
  lemma SummerFromCalendar(k: string)
    requires CalendarSeason(k) == Some(Summer)
    ensures k in SummerTokens
  {
  }

  /** The fall tokens are exactly the keys of September, October and November. */
  lemma FallIsCalendar(k: string)
    ensures k in FallTokens <==> CalendarSeason(k) == Some(Fall)
  {
    if CalendarSeason(k) == Some(Fall) {
      FallFromCalendar(k);
    }
  }

  /** A key the calendar puts in fall is one of its tokens. */
  lemma FallFromCalendar(k: string)
    requires CalendarSeason(k) == Some(Fall)
    ensures k in FallTokens
  {
  }

  /** The lookup agrees with the calendar: a key gets a season exactly when it names a month, and then that month's season. */
  lemma GetSeasonIsCalendar(month: Cell)
    ensures GetSeason(month) == match month case None => None case Some(m) => CalendarSeason(MonthKey(m))
  {
    if month.Some? {
      var k := MonthKey(month.value);
      WinterIsCalendar(k);
      SpringIsCalendar(k);
      SummerIsCalendar(k);
      FallIsCalendar(k);
    }
  }

  /** All 24 tokens. */
  function AllTokens(): seq<string> {
    WinterTokens + SpringTokens + SummerTokens + FallTokens
  }

  /** No token is listed twice, so the four lists are disjoint and each token has one season. */
  lemma TokensDistinct()
    ensures |AllTokens()| == 24
    ensures forall i, j :: 0 <= i < j < |AllTokens()| ==> AllTokens()[i] != AllTokens()[j]
  {
  }

  /** The lookup is total and finds a season exactly for the 24 tokens. */
  lemma SeasonFoundIffToken(m: string)
    ensures GetSeason(Some(m)).Some? <==> MonthKey(m) in AllTokens()
  {
  }

  /** Each season is given exactly to the keys in its own list. */
  lemma SeasonOfToken(m: string, s: Season)
    ensures GetSeason(Some(m)) == Some(s) <==>
      MonthKey(m) in match s
      case Winter => WinterTokens
      case Spring => SpringTokens
      case Summer => SummerTokens
      case Fall => FallTokens
  {
    var k := MonthKey(m);
    match s
    case Winter =>
    case Spring => SpringKeys(k);
    case Summer => SummerKeys(k);
    case Fall => FallKeys(k);
  }

  /** A spring token is no winter token. */
  lemma SpringKeys(k: string)
    ensures LookupSeason(k) == Some(Spring) <==> k in SpringTokens
  {
    if k in SpringTokens {
      assert k !in WinterTokens;
    }
  }

  /** A summer token is no winter or spring token. */
  lemma SummerKeys(k: string)
    ensures LookupSeason(k) == Some(Summer) <==> k in SummerTokens
  {
    if k in SummerTokens {
      assert k !in WinterTokens && k !in SpringTokens;
    }
  }

  /** A fall token is no winter, spring or summer token. */
  lemma FallKeys(k: string)
    ensures LookupSeason(k) == Some(Fall) <==> k in FallTokens
  {
    if k in FallTokens {
      assert k !in WinterTokens && k !in SpringTokens && k !in SummerTokens;
    }
  }

  /** A zero-padded month number is not a token. */
  lemma PaddedMonthHasNoSeason()
    ensures GetSeason(Some("01")) == None
  {
    StripLeading([], "01");
    assert [] + "01" == "01";
    assert Lower("01") == "01";
    ZeroNotToken("01");
  }

  /** No token starts with the digit zero. */
  lemma ZeroNotToken(k: string)
    requires |k| > 0 && k[0] == '0'
    ensures LookupSeason(k) == None
  {
    forall t | t in AllTokens()
      ensures t[0] != '0'
    {
    }
  }

  /** A month number. */
  lemma NumberExample()
    ensures GetSeason(Some("12")) == Some(Winter)
  {
    StripLeading([], "12");
    assert [] + "12" == "12";
    assert Lower("12") == "12";
  }

  /** A capitalised month name. */
  lemma NameExample()
    ensures GetSeason(Some("July")) == Some(Summer)
  {
    StripLeading([], "July");
    assert [] + "July" == "July";
    assert Lower("July") == "july";
  }
}
