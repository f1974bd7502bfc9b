/**
 * The renderer's application store (`useAppStore`): a list of projects, the current project
 * and a loading flag. A project is a JavaScript object, modelled as a map from field names to
 * values; a field that is absent reads as `undefined`. The clock readings the actions take
 * (`Date.now().toString()` and `new Date().toISOString()`) are inputs.
 */
module Store {
  import opened Wrappers

  /** The JavaScript values a project field holds, compared with `===`. */
  datatype Value = Undefined | Null | Bool(b: bool) | Num(n: int) | Str(s: string)

  type Project = map<string, Value>

  /** `p[name]`: a missing field is `undefined`. */
  function Field(p: Project, name: string): Value {
    if name in p then p[name] else Undefined
  }

  /**
   * `{id: now, createdAt: iso, ...fields}`: the argument's own fields come last and so win
   * over the generated `id` and `createdAt`.
   */
  function NewProject(fields: Project, now: string, iso: string): (p: Project)
    ensures p.Keys == fields.Keys + {"id", "createdAt"}
    ensures forall k :: k in fields ==> p[k] == fields[k]
    ensures Field(p, "id") == if "id" in fields then fields["id"] else Str(now)
    ensures Field(p, "createdAt") == if "createdAt" in fields then fields["createdAt"] else Str(iso)
  {
    map["id" := Str(now), "createdAt" := Str(iso)] + fields
  }

  /**
   * `{...current, ...updates, updatedAt: iso}`: the updates win over the old fields and the
   * fresh `updatedAt` wins over both.
   */
  function Merged(current: Project, updates: Project, iso: string): (p: Project)
    ensures p.Keys == current.Keys + updates.Keys + {"updatedAt"}
    ensures p["updatedAt"] == Str(iso)
    ensures forall k :: k in updates && k != "updatedAt" ==> p[k] == updates[k]
    ensures forall k :: k in current && k !in updates && k != "updatedAt" ==> p[k] == current[k]
  {
    (current + updates)["updatedAt" := Str(iso)]
  }

  /** `projects.findIndex(p => p.id === id)`, with None for -1. */
  function FindIndex(projects: seq<Project>, id: Value): (r: Option<nat>)
    ensures r.Some? ==> r.value < |projects| && Field(projects[r.value], "id") == id
    ensures r.Some? ==> forall j :: 0 <= j < r.value ==> Field(projects[j], "id") != id
    ensures r.None? ==> forall j :: 0 <= j < |projects| ==> Field(projects[j], "id") != id
  {
    if projects == [] then None
    else if Field(projects[0], "id") == id then Some(0)
    else match FindIndex(projects[1..], id)
      case None => None
      case Some(k) => Some(k + 1)
  }

  class AppStore {
    const appName: string
    var isLoading: bool
    var currentProject: Option<Project>
    var projects: seq<Project>

    /** The store's initial state. */
    constructor ()
      ensures appName == "交互式视频编辑器"
      ensures !isLoading && currentProject == None && projects == []
    {
      appName := "交互式视频编辑器";
      isLoading := false;
      currentProject := None;
      projects := [];
    }

    /** The `projectCount` getter. */
    function ProjectCount(): nat
      reads this
    {
      |projects|
    }

    /** The `hasActiveProject` getter: `currentProject !== null`. */
    predicate HasActiveProject()
      reads this
    {
      currentProject.Some?
    }

    /** `setLoading(status)`. */
    method SetLoading(status: bool)
      modifies this
      ensures isLoading == status
      ensures currentProject == old(currentProject) && projects == old(projects)
    {
      isLoading := status;
    }

    /**
     * `createProject(fields)`: appends exactly one new project, makes it current and returns
     * it; the list grows by one and nothing before it changes.
     */
    method CreateProject(fields: Project, now: string, iso: string) returns (p: Project)
      modifies this
      ensures p == NewProject(fields, now, iso)
      ensures projects == old(projects) + [p]
      ensures currentProject == Some(p) && HasActiveProject()
      ensures ProjectCount() == old(ProjectCount()) + 1
      ensures isLoading == old(isLoading)
    {
      p := NewProject(fields, now, iso);
      projects := projects + [p];
      currentProject := Some(p);
    }

    /**
     * `setCurrentProject(id)`: with a project of that id, makes the first such project current
     * and answers true; otherwise answers false and changes nothing.
     */
    method SetCurrentProject(id: Value) returns (found: bool)
      modifies this
      ensures projects == old(projects) && isLoading == old(isLoading)
      ensures found <==> exists j :: 0 <= j < |projects| && Field(projects[j], "id") == id
      ensures found ==> currentProject == Some(projects[FindIndex(projects, id).value])
      ensures !found ==> currentProject == old(currentProject)
    {
      var index := FindIndex(projects, id);
      if index.Some? {
        currentProject := Some(projects[index.value]);
        return true;
      }
      return false;
    }

    /**
     * `updateProject(id, updates)`: replaces the first project with that id by its merge with
     * the updates (and a fresh `updatedAt`), leaving the length and every other entry as they
     * were; the current project follows when its id is `id`. An absent id changes nothing.
     */
    method UpdateProject(id: Value, updates: Project, iso: string) returns (found: bool)
      modifies this
      ensures found <==> exists j :: 0 <= j < |old(projects)| && Field(old(projects)[j], "id") == id
      ensures !found ==> projects == old(projects) && currentProject == old(currentProject)
      ensures found ==>
        var i := FindIndex(old(projects), id).value;
        && |projects| == |old(projects)|
        && projects[i] == Merged(old(projects)[i], updates, iso)
        && (forall j :: 0 <= j < |projects| && j != i ==> projects[j] == old(projects)[j])
        && currentProject == if old(currentProject).Some? && Field(old(currentProject).value, "id") == id
                             then Some(projects[i]) else old(currentProject)
      ensures isLoading == old(isLoading)
    {
      var index := FindIndex(projects, id);
      if index.Some? {
        var i := index.value;
        projects := projects[i := Merged(projects[i], updates, iso)];
        if currentProject.Some? && Field(currentProject.value, "id") == id {
          currentProject := Some(projects[i]);
        }
        return true;
      }
      return false;
    }
  }
}
