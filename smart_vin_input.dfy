/**
 * The VIN lookup field: the strict validator, the edit handler, the search
 * that asks the workshop database first and NHTSA second, and the status
 * line.  The two lookups are inputs giving their outcome; a search runs to
 * completion before the next event.
 */
module SmartVinInput {
  import opened Wrappers
  import opened Text
  import opened VinAlphabet
  import VinScanner

  /**
   * `validateVin`: exactly 17 characters, each in the VIN class once letter
   * case is ignored (the `i` flag); nothing is stripped first.
   */
  predicate ValidateVin(v: string) {
    |v| == 17 && forall i :: 0 <= i < |v| ==> VinChar(UpperChar(v[i]))
  }

  /** The validator accepts exactly the strings whose upper-case form is 17 class characters. */
  lemma ValidateVinIffUpperIsVin(v: string)
    ensures ValidateVin(v) <==> |ToUpper(v)| == 17 && AllVinChars(ToUpper(v))
  {
  }

  /** I, O and Q are rejected in either case. */
  lemma RejectsIOQ(v: string, i: int)
    requires 0 <= i < |v| && v[i] in "IiOoQq"
    ensures !ValidateVin(v)
  {
    assert !VinChar(UpperChar(v[i]));
  }

  /** A separator is not stripped: a VIN with a space or a dash in it is refused. */
  lemma RejectsSeparator(v: string, i: int)
    requires 0 <= i < |v| && !VinScanner.Alnum(UpperChar(v[i]))
    ensures !ValidateVin(v)
  {
    assert !VinChar(UpperChar(v[i]));
  }

  /** The input field is stricter than the scanner: whatever it accepts, the scanner accepts unchanged. */
  lemma ValidateImpliesScannerValid(v: string)
    requires ValidateVin(v)
    ensures VinScanner.CleanVin(v) == ToUpper(v)
    ensures VinScanner.IsValidVin(v)
  {
    VinScanner.VinClassIsValid(ToUpper(v));
  }

  /**
   * The converse fails: the scanner accepts a VIN with a dash in front,
   * which the input field refuses.
   */
  lemma ScannerAcceptsWhatFieldRefuses(v: string)
    requires |v| == 17 && AllVinChars(v)
    ensures VinScanner.IsValidVin("-" + v)
    ensures !ValidateVin("-" + v)
  {
    VinScanner.VinClassIsValid(v);
    assert !VinScanner.Alnum(UpperChar('-'));
    VinScanner.SeparatorIgnored([], '-', v);
    assert [] + ['-'] + v == "-" + v;
    assert [] + v == v;
  }

  /** The six values of `searchStatus`. */
  datatype Status = Idle | SearchingDb | SearchingNhtsa | Found | NotFound | Error

  /** Where the vehicle data came from (`dataSource`). */
  datatype Source = Database | Nhtsa

  /** The vehicle record handed to the form, field name to value. */
  type VehicleInfo = map<string, string>

  /** The outcome of one lookup: a record, `null`, or a thrown error. */
  datatype Lookup = Hit(data: VehicleInfo) | Miss | Throws

  /** `getStatusMessage`: fixed text per status; only `found` looks at the source. */
  function StatusMessage(status: Status, source: Option<Source>): string {
    match status
    case SearchingDb => "Searching in database..."
    case SearchingNhtsa => "Searching NHTSA database..."
    case Found => if source == Some(Database) then "Vehicle found in database" else "Vehicle information retrieved from NHTSA"
    case NotFound => "VIN not found in any database"
    case Error => "Error occurred during search"
    case Idle => ""
  }

  /** The message depends on the data source only when the status is `found`. */
  lemma OnlyFoundDependsOnSource(status: Status, a: Option<Source>, b: Option<Source>)
    requires status != Found
    ensures StatusMessage(status, a) == StatusMessage(status, b)
  {
  }

  /** Distinct statuses show distinct messages, and only `idle` shows none. */
  lemma MessagesTellStatusesApart(s: Status, t: Status, a: Option<Source>, b: Option<Source>)
    ensures StatusMessage(s, a) == StatusMessage(t, b) ==> s == t
    ensures StatusMessage(s, a) == "" <==> s == Idle
  {
    assert "Searching in database..."[10] != "Searching NHTSA database..."[10];
    assert "Vehicle found in database"[0] != "Searching in database..."[0];
    assert "Vehicle found in database"[8] != "Vehicle information retrieved from NHTSA"[8];
    assert "Vehicle information retrieved from NHTSA"[0] != "VIN not found in any database"[1];
  }

  /** The component's state. */
  class VinField {
    var vin: string
    var isSearching: bool
    var status: Status
    var foundData: Option<VehicleInfo>
    var dataSource: Option<Source>
    /** The calls made to `onVehicleDataFound`, oldest first. */
    var reported: seq<(VehicleInfo, Source)>

    /** Between events: data and source are present exactly when a vehicle was found, and no search is running. */
    predicate Settled()
      reads this
    {
      !isSearching && status != SearchingDb && status != SearchingNhtsa &&
      (status == Found <==> foundData.Some?) && (foundData.Some? <==> dataSource.Some?)
    }

    /** The initial state of lines 48-52; the initial VIN is taken as given. */
    constructor (initialVin: string)
      ensures vin == initialVin && !isSearching && status == Idle
      ensures foundData == None && dataSource == None && reported == []
      ensures Settled()
    {
      vin := initialVin;
      isSearching := false;
      status := Idle;
      foundData := None;
      dataSource := None;
      reported := [];
    }

    /** `handleVinChange`: the upper-cased value is stored; any non-idle status resets to idle. */
    method HandleVinChange(value: string)
      modifies this
      ensures vin == ToUpper(value)
      ensures old(status) != Idle ==> status == Idle && foundData == None && dataSource == None
      ensures old(status) == Idle ==> status == Idle && foundData == old(foundData) && dataSource == old(dataSource)
      ensures isSearching == old(isSearching) && reported == old(reported)
      ensures old(Settled()) ==> Settled()
    {
      vin := ToUpper(value);
      if status != Idle {
        status := Idle;
        foundData := None;
        dataSource := None;
      }
    }

    /**
     * `handleVinSearch` for `v`, with `db` and `nhtsa` the outcomes the two
     * lookups would give.  `queries` lists the lookups made, in order, and
     * `trace` the statuses set, in order.
     */
    method HandleVinSearch(v: string, db: Lookup, nhtsa: Lookup) returns (queries: seq<Source>, trace: seq<Status>)
      modifies this
      ensures !ValidateVin(v) ==>
        queries == [] && trace == [] &&
        status == old(status) && isSearching == old(isSearching) && foundData == old(foundData) &&
        dataSource == old(dataSource) && reported == old(reported)
      ensures ValidateVin(v) ==> !isSearching && Settled()
      ensures ValidateVin(v) && db.Hit? ==>
        queries == [Database] && trace == [SearchingDb, Found] &&
        status == Found && foundData == Some(db.data) && dataSource == Some(Database) &&
        reported == old(reported) + [(db.data, Database)]
      ensures ValidateVin(v) && db.Throws? ==>
        queries == [Database] && trace == [SearchingDb, Error] &&
        status == Error && foundData == None && dataSource == None && reported == old(reported)
      ensures ValidateVin(v) && db.Miss? && nhtsa.Hit? ==>
        queries == [Database, Nhtsa] && trace == [SearchingDb, SearchingNhtsa, Found] &&
        status == Found && foundData == Some(nhtsa.data) && dataSource == Some(Nhtsa) &&
        reported == old(reported) + [(nhtsa.data, Nhtsa)]
      ensures ValidateVin(v) && db.Miss? && nhtsa.Miss? ==>
        queries == [Database, Nhtsa] && trace == [SearchingDb, SearchingNhtsa, NotFound] &&
        status == NotFound && foundData == None && dataSource == None && reported == old(reported)
      ensures ValidateVin(v) && db.Miss? && nhtsa.Throws? ==>
        queries == [Database, Nhtsa] && trace == [SearchingDb, SearchingNhtsa, Error] &&
        status == Error && foundData == None && dataSource == None && reported == old(reported)
      ensures vin == old(vin)
    {
      queries := [];
      trace := [];
      if !ValidateVin(v) {
        return;
      }
      isSearching := true;
      status := SearchingDb;
      trace := trace + [status];
      foundData := None;
      dataSource := None;
      queries := queries + [Database];
      if db.Throws? {
        status := Error;
        trace := trace + [status];
      } else if db.Hit? {
        foundData := Some(db.data);
        dataSource := Some(Database);
        status := Found;
        trace := trace + [status];
        reported := reported + [(db.data, Database)];
      } else {
        status := SearchingNhtsa;
        trace := trace + [status];
        queries := queries + [Nhtsa];
        if nhtsa.Throws? {
          status := Error;
          trace := trace + [status];
        } else if nhtsa.Hit? {
          foundData := Some(nhtsa.data);
          dataSource := Some(Nhtsa);
          status := Found;
          trace := trace + [status];
          reported := reported + [(nhtsa.data, Nhtsa)];
        } else {
          status := NotFound;
          trace := trace + [status];
        }
      }
      isSearching := false;
    }
  }
}
