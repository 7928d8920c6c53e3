// The crumb chain FilePathBreadcrumbs derives from a path value: the root,
// the ancestors from the root's child down to the parent, the label of each
// ancestor and the file name of the value itself. A path helper that throws
// during rendering is an Err.
module FilePathInput {
  import opened Wrappers
  import opened FilePath

  datatype Crumbs = Crumbs(root: string, paths: seq<string>, labels: seq<string>, filename: string, rootOnly: bool)

  /** value == "" ? [value] : generateParents(value, true). */
  function CrumbChain(value: string, urlRoot: UrlRoot): (r: Result<seq<string>>)
    ensures r.Ok? ==> |r.value| > 0
    ensures value == "" ==> r == Ok([""])
    ensures value != "" ==> r == GenerateParents(value, true, urlRoot)
  {
    if value == "" then Ok([value]) else GenerateParents(value, true, urlRoot)
  }

  /** Each crumb's label: its basename, with the crumb before it (the root for the first) as dirname. */
  function Labels(paths: seq<string>, prev: string, root: string, urlRoot: UrlRoot): (r: Result<seq<string>>)
    ensures r.Ok? ==> |r.value| == |paths|
    ensures r.Ok? ==> forall i :: 0 <= i < |paths| ==>
      Basename(paths[i], "", root, if i > 0 then paths[i - 1] else prev, urlRoot) == Ok(r.value[i])
  {
    if paths == [] then Ok([])
    else
      match Basename(paths[0], "", root, prev, urlRoot)
      case Err(e) => Err(e)
      case Ok(first) =>
        match Labels(paths[1..], paths[0], root, urlRoot)
        case Err(e) => Err(e)
        case Ok(rest) => Ok([first] + rest)
  }

  /**
   * The crumbs: the first element of the chain is the root, the rest the
   * crumbs; rootOnly holds exactly when the value is the root, and then
   * the file name is empty; otherwise it is the value's basename with the
   * last crumb (if any) as dirname.
   */
  function Breadcrumbs(value: string, urlRoot: UrlRoot): (r: Result<Crumbs>)
    ensures value == "" ==> r == Ok(Crumbs("", [], [], "", true))
    ensures r.Ok? ==> (r.value.rootOnly <==> value == r.value.root)
    ensures r.Ok? && r.value.rootOnly ==> r.value.filename == ""
    ensures r.Ok? && value != "" ==> ExtractRoot(value, urlRoot) == Ok(r.value.root)
    ensures r.Ok? ==> |r.value.labels| == |r.value.paths|
    ensures r.Ok? && !r.value.rootOnly ==>
      var ps := r.value.paths;
      Basename(value, "", r.value.root, if |ps| > 0 then ps[|ps| - 1] else "", urlRoot) == Ok(r.value.filename)
  {
    match CrumbChain(value, urlRoot)
    case Err(e) => Err(e)
    case Ok(chain) =>
      var root := chain[0];
      var paths := chain[1..];
      var rootOnly := value == root;
      var dirPath := if |paths| > 0 then paths[|paths| - 1] else "";
      var filenameR := if rootOnly then Ok("") else Basename(value, "", root, dirPath, urlRoot);
      if filenameR.Err? then Err(filenameR.error)
      else
        match Labels(paths, root, root, urlRoot)
        case Err(e) => Err(e)
        case Ok(labels) => Ok(Crumbs(root, paths, labels, filenameR.value, rootOnly))
  }

  /** The root of a path is its only crumb, with no labels and no file name. */
  lemma RootOnlyCrumbs(value: string, urlRoot: UrlRoot)
    requires value != "" && ExtractRoot(value, urlRoot) == Ok(value)
    ensures Breadcrumbs(value, urlRoot) == Ok(Crumbs(value, [], [], "", true))
  {
    assert GenerateParents(value, true, urlRoot) == Ok([value]);
    assert [value][1..] == [];
  }

  /** basename with a given dirname on a slash path: the rest after the dirname and the slashes that follow it. */
  lemma SlashBasename(path: string, root: string, dir: string, urlRoot: UrlRoot, k: nat)
    requires '/' in path && dir != "" && |dir| <= k <= |path|
    requires forall j :: |dir| <= j < k ==> SepAt(path, j, "/")
    requires k < |path| ==> !SepAt(path, k, "/")
    ensures Basename(path, "", root, dir, urlRoot) == Ok(path[k..])
  {
    SkipForwardTo(path, "/", |dir|, k);
  }

  /** The crumbs of a value that is not its root, from the chain, the labels and the file name. */
  lemma CrumbsOf(value: string, urlRoot: UrlRoot, chain: seq<string>, labels: seq<string>, filename: string)
    requires CrumbChain(value, urlRoot) == Ok(chain) && |chain| > 1 && value != chain[0]
    requires Basename(value, "", chain[0], chain[|chain| - 1], urlRoot) == Ok(filename)
    requires Labels(chain[1..], chain[0], chain[0], urlRoot) == Ok(labels)
    ensures Breadcrumbs(value, urlRoot) == Ok(Crumbs(chain[0], chain[1..], labels, filename, false))
  {
    assert chain[1..][|chain| - 2] == chain[|chain| - 1];
  }

  /** "/srv/data/photos" shows under the root as "srv", "data" and then the file name "photos". */
  lemma PhotosCrumbs(urlRoot: UrlRoot)
    ensures Breadcrumbs("/srv/data/photos", urlRoot) ==
      Ok(Crumbs("/", ["/srv", "/srv/data"], ["srv", "data"], "photos", false))
  {
    var p := "/srv/data/photos";
    var chain := ["/", "/srv", "/srv/data"];
    assert CrumbChain(p, urlRoot) == Ok(chain) by {
      PhotosExample(urlRoot);
    }
    PhotosBasenames(urlRoot);
    PhotosLabels(urlRoot);
    assert chain[1..] == ["/srv", "/srv/data"];
    CrumbsOf(p, urlRoot, chain, ["srv", "data"], "photos");
  }

  lemma PhotosBasenames(urlRoot: UrlRoot)
    ensures Basename("/srv/data/photos", "", "/", "/srv/data", urlRoot) == Ok("photos")
    ensures Basename("/srv", "", "/", "/", urlRoot) == Ok("srv")
    ensures Basename("/srv/data", "", "/", "/srv", urlRoot) == Ok("data")
  {
    var p := "/srv/data/photos";
    assert SepAt(p, 9, "/") && !SepAt(p, 10, "/");
    SlashBasename(p, "/", "/srv/data", urlRoot, 10);
    assert p[10..] == "photos";
    var t := "/srv";
    assert !SepAt(t, 1, "/");
    SlashBasename(t, "/", "/", urlRoot, 1);
    assert t[1..] == "srv";
    var d := "/srv/data";
    assert SepAt(d, 4, "/") && !SepAt(d, 5, "/");
    SlashBasename(d, "/", "/srv", urlRoot, 5);
    assert d[5..] == "data";
  }

  lemma PhotosLabels(urlRoot: UrlRoot)
    requires Basename("/srv", "", "/", "/", urlRoot) == Ok("srv")
    requires Basename("/srv/data", "", "/", "/srv", urlRoot) == Ok("data")
    ensures Labels(["/srv", "/srv/data"], "/", "/", urlRoot) == Ok(["srv", "data"])
  {
    assert ["/srv", "/srv/data"][1..] == ["/srv/data"];
    assert ["/srv/data"][1..] == [];
    assert Labels([], "/srv/data", "/", urlRoot) == Ok([]);
    assert ["data"] + [] == ["data"];
    assert Labels(["/srv/data"], "/srv", "/", urlRoot) == Ok(["data"]);
    assert ["srv"] + ["data"] == ["srv", "data"];
  }
}
