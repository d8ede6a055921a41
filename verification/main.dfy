/**
 * The earlier revision of the service (main.py): telemetry rows have no
 * loader, routes have no `/telemetry` prefix, error texts are in Spanish, the
 * mod-version statistics group by two columns, and the CSV export is
 * comma-delimited with five columns.
 *
 * The database is two in-memory tables held by a `Database` object; the
 * handlers that insert rows are methods that append to them, the statistics
 * handlers are functions of the tables, and the export is a method that
 * builds the file row by row.
 */
module MainService {
  import opened Wrappers
  import opened Http
  import opened AccessGate
  import opened Registry
  import opened Grouping

  /**
   * A row of the telemetry table, one per accepted ping: its primary key,
   * `modRef` (the `mod_id` foreign key, holding a mod's primary key), the
   * reported versions, and the date it was stored.
   */
  datatype Telemetry = Telemetry(
    id: int,
    modRef: int,
    gameVersion: string,
    modVersion: string,
    usageDate: Date)

  /** The primary-key column of the telemetry table. */
  function RowIds(tel: seq<Telemetry>): (ids: seq<int>)
    ensures |ids| == |tel|
    ensures forall i :: 0 <= i < |tel| ==> ids[i] == tel[i].id
  {
    seq(|tel|, i requires 0 <= i < |tel| => tel[i].id)
  }

  /** The foreign-key column of the telemetry table. */
  function Refs(tel: seq<Telemetry>): (refs: seq<int>)
    ensures |refs| == |tel|
    ensures forall i :: 0 <= i < |tel| ==> refs[i] == tel[i].modRef
  {
    seq(|tel|, i requires 0 <= i < |tel| => tel[i].modRef)
  }

  /** `filter(Telemetry.mod_id == key)`: the rows of one mod, in table order. */
  function RowsOf(tel: seq<Telemetry>, key: int): (rows: seq<Telemetry>)
    ensures |rows| <= |tel|
    ensures forall t :: t in rows <==> t in tel && t.modRef == key
  {
    if tel == [] then []
    else
      assert tel == [tel[0]] + tel[1..];
      (if tel[0].modRef == key then [tel[0]] else []) + RowsOf(tel[1..], key)
  }

  /** The group key of the mod-version statistics. */
  datatype VersionKey = VersionKey(modVersion: string, gameVersion: string)

  /** The `(mod_version, game_version)` column pair of some rows. */
  function VersionKeys(rows: seq<Telemetry>): (ks: seq<VersionKey>)
    ensures |ks| == |rows|
    ensures forall i :: 0 <= i < |rows| ==> ks[i] == VersionKey(rows[i].modVersion, rows[i].gameVersion)
  {
    seq(|rows|, i requires 0 <= i < |rows| => VersionKey(rows[i].modVersion, rows[i].gameVersion))
  }

  /** The `game_version` column. */
  function GameVersions(tel: seq<Telemetry>): (ks: seq<string>)
    ensures |ks| == |tel|
    ensures forall i :: 0 <= i < |tel| ==> ks[i] == tel[i].gameVersion
  {
    seq(|tel|, i requires 0 <= i < |tel| => tel[i].gameVersion)
  }

  const WrongPassword := "Contraseña incorrecta"
  const MissingData := "Faltan datos"
  const ModExists := "El mod ya existe"
  const NoSuchMod := "El mod no existe"
  const ModCreated := "Mod creado con éxito"
  const DataSaved := "Datos guardados con éxito"

  /** The keys `create_mod` requires besides the password. */
  const ModFields := ["mod_id", "mod_name"]

  /** The keys `receive_telemetry` requires. */
  const PingFields := ["game_version", "mod_id", "mod_version"]

  const CsvDelimiter := ','

  const CsvHeader: seq<Cell> :=
    [Text("id"), Text("game_version"), Text("mod_id"), Text("mod_version"), Text("usage_date")]

  /**
   * The export row of one telemetry row whose mod has the external id
   * `modId`; the date is handed to the writer as a date value.
   */
  function CsvRow(t: Telemetry, modId: string): seq<Cell>
  {
    [Number(t.id), Text(t.gameVersion), Text(modId), Text(t.modVersion), Day(t.usageDate)]
  }

  /** The `mod_id` field read back from an exported row. */
  function ModColumn(row: seq<Cell>): Option<string>
  {
    if |row| > 2 && row[2].Text? then Some(row[2].s) else None
  }

  /** The service's database and its configured secret. */
  class Database {
    /** PASSWORD from the environment; `None` when it is unset. */
    const password: Option<string>
    var mods: seq<Mod>
    var telemetry: seq<Telemetry>

    /** Unique keys, unique `mod_id`s, and every telemetry row names an existing mod. */
    ghost predicate Valid()
      reads this
    {
      StoreInvariant(mods, RowIds(telemetry), Refs(telemetry))
    }

    /** A fresh service over empty tables. */
    constructor (password: Option<string>)
      ensures Valid()
      ensures this.password == password && mods == [] && telemetry == []
    {
      this.password := password;
      mods := [];
      telemetry := [];
    }

    /**
     * POST /mods. Checks, in this order: the password, the presence
     * of `mod_id` and `mod_name`, that the `mod_id` is not registered yet;
     * a `null` in either field passes those checks and then violates the
     * NOT NULL columns on insert. Only a request that passes everything adds
     * a mod (exactly one); nothing else changes.
     */
    method CreateMod(body: Body) returns (r: Reply<string>)
      requires Valid()
      modifies this
      ensures Valid()
      ensures telemetry == old(telemetry)
      ensures !VerifyPassword(body, password) ==> r == Failure(403, WrongPassword)
      ensures VerifyPassword(body, password) && !HasAll(body, ModFields) ==> r == Failure(400, MissingData)
      ensures (VerifyPassword(body, password) && HasAll(body, ModFields)
                && FindByJson(old(mods), body["mod_id"]).Some?) ==> r == Failure(400, ModExists)
      ensures (VerifyPassword(body, password) && HasAll(body, ModFields)
                && FindByJson(old(mods), body["mod_id"]).None?
                && (body["mod_id"].JNull? || body["mod_name"].JNull?)) ==> r == Failure(500, InternalError)
      ensures r.Success? <==>
                && VerifyPassword(body, password) && HasAll(body, ModFields)
                && body["mod_id"].JString? && body["mod_name"].JString?
                && FindByModId(old(mods), body["mod_id"].s).None?
      ensures r.Success? ==>
                && r == Success(201, ModCreated)
                && mods == old(mods) + [Mod(NextRowId(ModKeys(old(mods))), body["mod_id"].s, body["mod_name"].s)]
      ensures r.Failure? ==> mods == old(mods)
    {
      if !VerifyPassword(body, password) {
        return Failure(403, WrongPassword);
      }
      if !HasAll(body, ModFields) {
        return Failure(400, MissingData);
      }
      if FindByJson(mods, body["mod_id"]).Some? {
        return Failure(400, ModExists);
      }
      if body["mod_id"].JNull? || body["mod_name"].JNull? {
        return Failure(500, InternalError);
      }
      var modId, modName := body["mod_id"].s, body["mod_name"].s;
      RegisterKeepsInvariant(mods, RowIds(telemetry), Refs(telemetry), modId, modName);
      mods := mods + [Mod(NextRowId(ModKeys(mods)), modId, modName)];
      r := Success(201, ModCreated);
    }

    /**
     * POST /telemetry. Needs no password. Checks, in this order: the
     * presence of the three fields (no loader), that a mod has the given
     * `mod_id`; a `null` version then violates a NOT NULL column on insert. A request
     * that passes adds exactly one row, pointing at the key of the mod found,
     * dated `today`; nothing else changes.
     */
    method ReceiveTelemetry(body: Body, today: Date) returns (r: Reply<string>)
      requires Valid()
      modifies this
      ensures Valid()
      ensures mods == old(mods)
      ensures !HasAll(body, PingFields) ==> r == Failure(400, MissingData)
      ensures HasAll(body, PingFields) && FindByJson(mods, body["mod_id"]).None? ==> r == Failure(404, NoSuchMod)
      ensures (HasAll(body, PingFields) && FindByJson(mods, body["mod_id"]).Some?
                && (body["game_version"].JNull? || body["mod_version"].JNull?))
                ==> r == Failure(500, InternalError)
      ensures r.Success? <==>
                && HasAll(body, PingFields) && FindByJson(mods, body["mod_id"]).Some?
                && body["game_version"].JString? && body["mod_version"].JString?
      ensures r.Success? ==>
                && r == Success(201, DataSaved)
                && telemetry == old(telemetry) + [Telemetry(
                     NextRowId(RowIds(old(telemetry))),
                     FindByJson(mods, body["mod_id"]).value.id,
                     body["game_version"].s, body["mod_version"].s, today)]
      ensures r.Failure? ==> telemetry == old(telemetry)
    {
      if !HasAll(body, PingFields) {
        return Failure(400, MissingData);
      }
      var mod := FindByJson(mods, body["mod_id"]);
      if mod.None? {
        return Failure(404, NoSuchMod);
      }
      if body["game_version"].JNull? || body["mod_version"].JNull? {
        return Failure(500, InternalError);
      }
      var row := Telemetry(
        NextRowId(RowIds(telemetry)), mod.value.id,
        body["game_version"].s, body["mod_version"].s, today);
      RecordKeepsInvariant(mods, RowIds(telemetry), Refs(telemetry), mod.value);
      assert RowIds(telemetry + [row]) == RowIds(telemetry) + [row.id];
      assert Refs(telemetry + [row]) == Refs(telemetry) + [row.modRef];
      telemetry := telemetry + [row];
      r := Success(201, DataSaved);
    }

    /**
     * GET /statistics/mods: usage per `mod_name` over the join of
     * the two tables, most used first. With a consistent store every
     * telemetry row is counted exactly once.
     */
    function MostUsedMods(args: Args): (r: Reply<seq<Usage<string>>>)
      reads this
      ensures !QueryAuthorized(args, password) ==> r == Failure(403, WrongPassword)
      ensures QueryAuthorized(args, password) ==>
                r.Success? && r.status == 200 && IsUsageReport(JoinNames(mods, Refs(telemetry)), r.value)
      ensures QueryAuthorized(args, password) && Valid() ==> Sum(r.value) == |telemetry|
    {
      if !QueryAuthorized(args, password) then Failure(403, WrongPassword)
      else
        JoinTotal(mods, Refs(telemetry));
        Success(200, MostUsed(JoinNames(mods, Refs(telemetry))))
    }

    /**
     * GET /statistics/mod_versions/<mod_id>: usage per
     * `(mod_version, game_version)` over the rows of that one mod,
     * most used first; 404 when no mod has that `mod_id`.
     */
    function MostUsedModVersions(modId: string, args: Args): (r: Reply<seq<Usage<VersionKey>>>)
      reads this
      ensures !QueryAuthorized(args, password) ==> r == Failure(403, WrongPassword)
      ensures QueryAuthorized(args, password) && FindByModId(mods, modId).None? ==> r == Failure(404, NoSuchMod)
      ensures QueryAuthorized(args, password) && FindByModId(mods, modId).Some? ==>
                && r.Success? && r.status == 200
                && IsUsageReport(VersionKeys(RowsOf(telemetry, FindByModId(mods, modId).value.id)), r.value)
                && Sum(r.value) == |RowsOf(telemetry, FindByModId(mods, modId).value.id)|
    {
      if !QueryAuthorized(args, password) then Failure(403, WrongPassword)
      else
        var mod := FindByModId(mods, modId);
        if mod.None? then Failure(404, NoSuchMod)
        else Success(200, MostUsed(VersionKeys(RowsOf(telemetry, mod.value.id))))
    }

    /** GET /statistics/game_versions: usage per `game_version`, most used first. */
    function MostUsedGameVersions(args: Args): (r: Reply<seq<Usage<string>>>)
      reads this
      ensures !QueryAuthorized(args, password) ==> r == Failure(403, WrongPassword)
      ensures QueryAuthorized(args, password) ==>
                && r.Success? && r.status == 200
                && IsUsageReport(GameVersions(telemetry), r.value)
                && Sum(r.value) == |telemetry|
    {
      if !QueryAuthorized(args, password) then Failure(403, WrongPassword)
      else Success(200, MostUsed(GameVersions(telemetry)))
    }

    /**
     * GET /export/csv: a header, then one row per telemetry row
     * with the foreign key replaced by the mod's external `mod_id`. A row
     * whose mod cannot be found makes the source raise (500); with a
     * consistent store that never happens, and each exported `mod_id` leads
     * back to the row's own mod.
     */
    method ExportCsv(args: Args) returns (r: Reply<CsvFile>)
      ensures !QueryAuthorized(args, password) ==> r == Failure(403, WrongPassword)
      ensures QueryAuthorized(args, password) ==>
                (r.Success? <==> AllResolve(mods, Refs(telemetry)))
      ensures QueryAuthorized(args, password) && !AllResolve(mods, Refs(telemetry)) ==>
                r == Failure(500, InternalError)
      ensures r.Success? ==>
                && r.status == 200
                && r.value.delimiter == CsvDelimiter
                && r.value.header == CsvHeader
                && |r.value.records| == |telemetry|
                && |r.value.Rows()| == |telemetry| + 1 && r.value.Rows()[0] == CsvHeader
                && forall i :: 0 <= i < |telemetry| ==>
                     && ModByKey(mods, telemetry[i].modRef).Some?
                     && r.value.records[i] == CsvRow(telemetry[i], ModByKey(mods, telemetry[i].modRef).value.modId)
      ensures Valid() && QueryAuthorized(args, password) ==> r.Success?
      ensures Valid() && r.Success? ==>
                forall i :: 0 <= i < |telemetry| ==>
                  && ModColumn(r.value.records[i]).Some?
                  && FindByModId(mods, ModColumn(r.value.records[i]).value) == ModByKey(mods, telemetry[i].modRef)
    {
      if !QueryAuthorized(args, password) {
        return Failure(403, WrongPassword);
      }
      var records := [];
      var i := 0;
      while i < |telemetry|
        invariant 0 <= i <= |telemetry|
        invariant |records| == i
        invariant forall j :: 0 <= j < i ==>
                    && ModByKey(mods, telemetry[j].modRef).Some?
                    && records[j] == CsvRow(telemetry[j], ModByKey(mods, telemetry[j].modRef).value.modId)
      {
        var mod := ModByKey(mods, telemetry[i].modRef);
        if mod.None? {
          assert !AllResolve(mods, Refs(telemetry)) by {
            assert Refs(telemetry)[i] == telemetry[i].modRef;
          }
          return Failure(500, InternalError);
        }
        records := records + [CsvRow(telemetry[i], mod.value.modId)];
        i := i + 1;
      }
      ExportedModIdsLeadBack(mods, telemetry, records);
      r := Success(200, CsvFile(CsvDelimiter, CsvHeader, records));
    }
  }

  /**
   * Reading the `mod_id` column back from the exported records and looking it
   * up finds the mod each telemetry row points at, provided `mod_id`s are
   * unique.
   */
  lemma ExportedModIdsLeadBack(mods: seq<Mod>, tel: seq<Telemetry>, records: seq<seq<Cell>>)
    requires |records| == |tel|
    requires forall i :: 0 <= i < |tel| ==>
               && ModByKey(mods, tel[i].modRef).Some?
               && records[i] == CsvRow(tel[i], ModByKey(mods, tel[i].modRef).value.modId)
    ensures UniqueModIds(mods) ==>
              forall i :: 0 <= i < |tel| ==>
                && ModColumn(records[i]).Some?
                && FindByModId(mods, ModColumn(records[i]).value) == ModByKey(mods, tel[i].modRef)
  {
    if UniqueModIds(mods) {
      forall i | 0 <= i < |tel|
        ensures ModColumn(records[i]) == Some(ModByKey(mods, tel[i].modRef).value.modId)
        ensures FindByModId(mods, ModByKey(mods, tel[i].modRef).value.modId) == ModByKey(mods, tel[i].modRef)
      {
        KeyThenModId(mods, tel[i].modRef);
      }
    }
  }
}
