/** The application's single state cell: the saved document loaded at start,
    the three slice setters the pages receive, and restoring from a backup.

    Reading storage and files is outside the model: the saved text arrives as
    a parameter, and `JSON.parse` is an abstract `parse` that either yields a
    document or fails. */
module AppState {
  import opened Types

  /** The argument of a slice setter: a new value, or an updater of the previous one. */
  datatype Update<!T> = Replace(value: T) | Apply(f: T -> T)

  /** An updater is applied to the previous value; a plain value replaces it. */
  function Resolve<T>(u: Update<T>, prev: T): (r: T)
    ensures u.Replace? ==> r == u.value
    ensures u.Apply? ==> r == u.f(prev)
  {
    match u
    case Replace(v) => v
    case Apply(f) => f(prev)
  }

  /** `setAdmins`: only the admins change. */
  function WithAdmins(d: AppData, u: Update<seq<Admin>>): (r: AppData)
    ensures r.admins == Resolve(u, d.admins)
    ensures r.courses == d.courses && r.sedulous == d.sedulous
  {
    d.(admins := Resolve(u, d.admins))
  }

  /** `setSedulous`: only the schedules change. */
  function WithSedulous(d: AppData, u: Update<seq<Sedulous>>): (r: AppData)
    ensures r.sedulous == Resolve(u, d.sedulous)
    ensures r.admins == d.admins && r.courses == d.courses
  {
    d.(sedulous := Resolve(u, d.sedulous))
  }

  /** `setCourses`: only the courses change. */
  function WithCourses(d: AppData, u: Update<seq<Course>>): (r: AppData)
    ensures r.courses == Resolve(u, d.courses)
    ensures r.admins == d.admins && r.sedulous == d.sedulous
  {
    d.(courses := Resolve(u, d.courses))
  }

  /** Updates of different slices do not interfere: they commute. */
  lemma SettersCommute(d: AppData, ua: Update<seq<Admin>>, us: Update<seq<Sedulous>>, uc: Update<seq<Course>>)
    ensures WithAdmins(WithSedulous(d, us), ua) == WithSedulous(WithAdmins(d, ua), us)
    ensures WithAdmins(WithCourses(d, uc), ua) == WithCourses(WithAdmins(d, ua), uc)
    ensures WithSedulous(WithCourses(d, uc), us) == WithCourses(WithSedulous(d, us), uc)
  {
  }

  /** Two updater calls in a row act as one call with the composed updater,
      and a replacement discards what came before it. */
  lemma SetterSequencing(d: AppData, f: seq<Admin> -> seq<Admin>, g: seq<Admin> -> seq<Admin>, v: seq<Admin>, u: Update<seq<Admin>>)
    ensures WithAdmins(WithAdmins(d, Apply(f)), Apply(g)) == WithAdmins(d, Apply(x => g(f(x))))
    ensures WithAdmins(WithAdmins(d, u), Replace(v)) == WithAdmins(d, Replace(v))
  {
  }

  /** The initial-state rule: `INITIAL_DATA` when nothing (or the empty
      string) is saved or the saved text does not parse, else the parsed document. */
  function LoadedData(saved: Option<string>, parse: string -> Option<AppData>): (r: AppData)
    ensures saved.None? || saved.value == "" ==> r == INITIAL_DATA
    ensures saved.Some? && saved.value != "" && parse(saved.value).None? ==> r == INITIAL_DATA
    ensures saved.Some? && saved.value != "" && parse(saved.value).Some? ==> r == parse(saved.value).value
  {
    if saved.None? || saved.value == "" then INITIAL_DATA
    else match parse(saved.value)
      case Some(d) => d
      case None => INITIAL_DATA
  }

  /** The loaded state always comes from the saved text or is the empty document. */
  lemma LoadedDataSource(saved: Option<string>, parse: string -> Option<AppData>)
    ensures LoadedData(saved, parse) == INITIAL_DATA
            || (saved.Some? && parse(saved.value) == Some(LoadedData(saved, parse)))
  {
  }

  /** The `data` state cell of the `App` component. */
  class App {
    var data: AppData

    /** The initial state, with the saved text read beforehand. */
    constructor Load(saved: Option<string>, parse: string -> Option<AppData>)
      ensures data == LoadedData(saved, parse)
    {
      if saved.Some? && saved.value != "" {
        var parsed := parse(saved.value);
        if parsed.Some? {
          data := parsed.value;
        } else {
          data := INITIAL_DATA;
        }
      } else {
        data := INITIAL_DATA;
      }
    }

    method SetAdmins(u: Update<seq<Admin>>)
      modifies this
      ensures data == WithAdmins(old(data), u)
    {
      data := data.(admins := Resolve(u, data.admins));
    }

    method SetSedulous(u: Update<seq<Sedulous>>)
      modifies this
      ensures data == WithSedulous(old(data), u)
    {
      data := data.(sedulous := Resolve(u, data.sedulous));
    }

    method SetCourses(u: Update<seq<Course>>)
      modifies this
      ensures data == WithCourses(old(data), u)
    {
      data := data.(courses := Resolve(u, data.courses));
    }

    /** `handleRestore`'s reader callback: the whole document is replaced on a
        successful parse and kept on a failure; `restored` tells which alert shows. */
    method Restore(text: string, parse: string -> Option<AppData>) returns (restored: bool)
      modifies this
      ensures restored <==> parse(text).Some?
      ensures restored ==> data == parse(text).value
      ensures !restored ==> data == old(data)
    {
      var parsed := parse(text);
      if parsed.Some? {
        data := parsed.value;
        restored := true;
      } else {
        restored := false;
      }
    }
  }
}
