/** The session's contribution list: `save_artifact` builds a record with
    defaults for absent details and appends it (app.py:27-39); the Explore
    tab shows the last three records (app.py:119-126). */
module Contributions {

  datatype Option<T> = None | Some(value: T)

  /** One saved contribution. `kind` holds the record's "type" entry. */
  datatype Artifact = Artifact(
    kind: string,
    file: string,
    title: string,
    description: string,
    region: string,
    date: string,
    user: string)

  /** Python's `details.get(key, fallback)`. */
  function GetOr(details: map<string, string>, key: string, fallback: string): (v: string)
    ensures key in details ==> v == details[key]
    ensures key !in details ==> v == fallback
  {
    if key in details then details[key] else fallback
  }

  /** The record `save_artifact` builds from the upload's name, the details
      dictionary and the date of the call. */
  function MakeArtifact(fileName: string, details: map<string, string>, date: string): (a: Artifact)
    ensures a.kind == "artifact" && a.file == fileName && a.date == date
    ensures a.title == GetOr(details, "title", "Untitled")
    ensures a.description == GetOr(details, "description", "")
    ensures a.region == GetOr(details, "region", "Unknown")
    ensures a.user == GetOr(details, "user", "Anonymous")
  {
    Artifact("artifact", fileName,
      GetOr(details, "title", "Untitled"),
      GetOr(details, "description", ""),
      GetOr(details, "region", "Unknown"),
      date,
      GetOr(details, "user", "Anonymous"))
  }

  /** With no details at all, every field takes its default. */
  lemma DefaultsWhenAbsent(fileName: string, date: string)
    ensures MakeArtifact(fileName, map[], date)
         == Artifact("artifact", fileName, "Untitled", "", "Unknown", date, "Anonymous")
  {
  }

  /** Supplied values are kept as they are, the empty string included;
      keys other than the four are ignored. */
  lemma SuppliedValuesKept(fileName: string, details: map<string, string>, date: string)
    requires "title" in details && "description" in details
    requires "region" in details && "user" in details
    ensures MakeArtifact(fileName, details, date)
         == Artifact("artifact", fileName, details["title"], details["description"],
                     details["region"], date, details["user"])
  {
  }

  /** The details the artifact form passes: its three inputs and the fixed
      user "User" (app.py:90-95). */
  function FormDetails(title: string, description: string, region: string): (d: map<string, string>)
    ensures d.Keys == {"title", "description", "region", "user"}
    ensures d["title"] == title && d["description"] == description
    ensures d["region"] == region && d["user"] == "User"
  {
    map["title" := title, "description" := description, "region" := region, "user" := "User"]
  }

  /** A form submission keeps every form value, even an empty title. */
  lemma FormValuesKept(fileName: string, title: string, description: string, region: string, date: string)
    ensures MakeArtifact(fileName, FormDetails(title, description, region), date)
         == Artifact("artifact", fileName, title, description, region, date, "User")
  {
    var d := FormDetails(title, description, region);
    assert d["title"] == title && d["description"] == description;
    assert d["region"] == region && d["user"] == "User";
  }

  /** Python's `s[start:]` for an integer `start`, negative counting from the
      end: the suffix of `s` that starts at the clamped index. */
  function SliceFrom<T>(s: seq<T>, start: int): (r: seq<T>)
    ensures |r| == if start < 0 then (if -start < |s| then -start else |s|)
                   else (if start < |s| then |s| - start else 0)
    ensures r == s[|s| - |r|..]
  {
    var i := if start < 0 then start + |s| else start;
    if i < 0 then s else if i > |s| then [] else s[i..]
  }

  /** The "Recent Contributions" slice `contributions[-3:]`: the last
      min(3, n) elements, in order, empty exactly when the list is. */
  function RecentOf<T>(s: seq<T>): (r: seq<T>)
    ensures |r| == if |s| < 3 then |s| else 3
    ensures r == s[|s| - |r|..]
    ensures r == [] <==> s == []
  {
    SliceFrom(s, -3)
  }

  /** Saving a record and then viewing equals viewing the old recent window
      extended by the record: the window slides by one. */
  lemma RecentAfterAppend<T>(s: seq<T>, a: T)
    ensures RecentOf(s + [a]) == RecentOf(RecentOf(s) + [a])
    ensures RecentOf(s + [a])[|RecentOf(s + [a])| - 1] == a
  {
    var t := s + [a];
    if |s| >= 3 {
      assert t[|t| - 3..] == s[|s| - 2..] + [a];
      assert RecentOf(s)[1..] == s[|s| - 2..];
      assert (RecentOf(s) + [a])[1..] == RecentOf(s)[1..] + [a];
    }
  }

  /** What the Explore tab shows: a notice when nothing has been contributed,
      otherwise the recent records. */
  datatype ExploreView = NoContributions | RecentItems(items: seq<Artifact>)

  function Explore(s: seq<Artifact>): (v: ExploreView)
    ensures v.NoContributions? <==> s == []
    ensures v.RecentItems? ==> |v.items| == (if |s| < 3 then |s| else 3)
    ensures v.RecentItems? ==> v.items == s[|s| - |v.items|..]
  {
    if s == [] then NoContributions else RecentItems(RecentOf(s))
  }

  /** `st.session_state.contributions`, starting from the empty list. */
  class Store {
    var contributions: seq<Artifact>

    constructor ()
      ensures contributions == []
    {
      contributions := [];
    }

    /** `save_artifact(upload, details)` with the upload given by its name and
        the date passed in. */
    method SaveArtifact(fileName: string, details: map<string, string>, date: string) returns (a: Artifact)
      modifies this
      ensures a == MakeArtifact(fileName, details, date)
      ensures contributions == old(contributions) + [a]
      ensures |contributions| == |old(contributions)| + 1
      ensures contributions[|contributions| - 1] == a
      ensures contributions[..|old(contributions)|] == old(contributions)
    {
      a := MakeArtifact(fileName, details, date);
      contributions := contributions + [a];
    }

    /** The artifact form: saves only when it was submitted with a file. */
    method SubmitArtifactForm(submitted: bool, upload: Option<string>,
                              title: string, description: string, region: string, date: string)
      returns (saved: Option<Artifact>)
      modifies this
      ensures saved.Some? <==> submitted && upload.Some?
      ensures saved.Some? ==>
                saved.value == Artifact("artifact", upload.value, title, description, region, date, "User")
      ensures saved.Some? ==> contributions == old(contributions) + [saved.value]
      ensures saved.None? ==> contributions == old(contributions)
    {
      if submitted && upload.Some? {
        var a := SaveArtifact(upload.value, FormDetails(title, description, region), date);
        FormValuesKept(upload.value, title, description, region, date);
        saved := Some(a);
      } else {
        saved := None;
      }
    }

    /** The records the Explore tab lists. */
    function Recent(): (r: seq<Artifact>)
      reads this
      ensures |r| == if |contributions| < 3 then |contributions| else 3
      ensures r == contributions[|contributions| - |r|..]
    {
      RecentOf(contributions)
    }
  }
}
