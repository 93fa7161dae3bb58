/** Model-location resolution and active-model selection of
    model_manager.py (`ModelManager`). The file system is a set of paths
    that exist; the configuration file is the map `json.load` would return,
    or nothing when the file is missing or unreadable. */
module Models {
  import opened Common

  /** A file-system path as its list of components. */
  type Path = seq<string>

  /** One entry of `AVAILABLE_MODELS`. */
  datatype ModelInfo = ModelInfo(sizeMb: nat, speed: string, accuracy: string, description: string)

  /** The keys of `AVAILABLE_MODELS`, in table order. */
  const ModelNames: seq<string> := ["tiny", "base", "small", "medium", "large"]

  predicate IsAvailable(name: string) {
    name in ModelNames
  }

  /** Every name in the table is one plain path component: non-empty,
      without `/`, and neither `.` nor `..`. */
  lemma TableNamesAreComponents(name: string)
    requires IsAvailable(name)
    ensures name != [] && '/' !in name && name != "." && name != ".."
  {
  }

  /** The `AVAILABLE_MODELS` entry of a known model. */
  function Catalogue(name: string): ModelInfo
    requires IsAvailable(name)
  {
    if name == "tiny" then ModelInfo(150, "Fastest", "Basic", "Best for quick tests and weak hardware")
    else if name == "base" then ModelInfo(400, "Very Fast", "Good", "Good balance for basic transcription")
    else if name == "small" then ModelInfo(900, "Fast", "Better", "Recommended for most users")
    else if name == "medium" then ModelInfo(3000, "Moderate", "Very Good", "Best quality for common hardware")
    else ModelInfo(6000, "Slow", "Best", "Highest quality, requires powerful hardware")
  }

  /** The table lists every model once, from the smallest download to the
      largest. */
  lemma CatalogueOrderedBySize(i: nat, j: nat)
    requires i < j < |ModelNames|
    ensures ModelNames[i] != ModelNames[j]
    ensures Catalogue(ModelNames[i]).sizeMb < Catalogue(ModelNames[j]).sizeMb
  {
    CatalogueSize(i);
    CatalogueSize(j);
  }

  /** The download size of the model at position `i` of the table. */
  lemma CatalogueSize(i: nat)
    requires i < |ModelNames|
    ensures Catalogue(ModelNames[i]).sizeMb == [150, 400, 900, 3000, 6000][i]
  {
    if i == 0 {
      assert ModelNames[0] == "tiny";
    } else if i == 1 {
      assert ModelNames[1] == "base" != "tiny";
    } else if i == 2 {
      assert ModelNames[2] == "small";
      assert "small"[0] != "tiny"[0] && "small"[0] != "base"[0];
    } else if i == 3 {
      assert ModelNames[3] == "medium";
      assert |"medium"| != |"tiny"| && "medium"[0] != "base"[0] && "medium"[0] != "small"[0];
    } else {
      assert ModelNames[4] == "large";
      assert "large"[0] != "tiny"[0] && "large"[0] != "base"[0] && "large"[0] != "small"[0] && "large"[0] != "medium"[0];
    }
  }

  /** Where a model was found. */
  datatype Location = Cache | App | Nowhere

  /** The location string `check_model_location` returns. */
  function LocationName(l: Location): string {
    match l
    case Cache => "cache"
    case App => "app"
    case Nowhere => "none"
  }

  /** The message of the `ValueError` for a name outside the table. */
  function InvalidName(name: string): string {
    "Invalid model name: " + name
  }

  /** What a download attempt did: the paths that exist afterwards in
      addition to the old ones, or the text of the exception it raised. */
  datatype DownloadOutcome = Fetched(added: set<Path>) | FetchRaised(error: string)

  /** The configuration `_load_config` returns for a file's contents. */
  function LoadedConfig(file: Option<map<string, string>>): map<string, string> {
    if file.Some? then file.value else map[]
  }

  /** The `current_model` the constructor reads from a configuration. */
  function SavedModel(file: Option<map<string, string>>): Option<string> {
    var config := LoadedConfig(file);
    if "current_model" in config then Some(config["current_model"]) else None
  }

  class ModelManager {
    /** `Path.home()`. */
    const home: Path
    var currentModel: Option<string>
    /** The contents of config.json, if it exists and parses. */
    var configFile: Option<map<string, string>>
    /** The paths that exist on disk. */
    var present: set<Path>

    /** `__init__`: the current model is whatever the configuration names. */
    constructor(home: Path, present: set<Path>, configFile: Option<map<string, string>>)
      ensures this.home == home && this.present == present && this.configFile == configFile
      ensures currentModel == SavedModel(configFile)
    {
      this.home := home;
      this.present := present;
      this.configFile := configFile;
      currentModel := SavedModel(configFile);
    }

    /** `cache_dir`. */
    function CacheDir(): Path {
      home + [".cache", "huggingface", "hub"]
    }

    /** `model_dir`. */
    function ModelDir(): Path {
      home + ["Library", "Application Support", "AudioTranscriber", "models"]
    }

    /** `get_cache_model_path`: the model's folder in the download cache. */
    function CacheModelPath(name: string): (p: Path)
      ensures |p| == |home| + 4 && p[..|home|] == home
      ensures p[|home| + 3] == "faster-whisper-" + name
    {
      CacheDir() + ["faster-whisper-" + name]
    }

    /** `get_app_model_path`: the model's folder in the application directory. */
    function AppModelPath(name: string): (p: Path)
      ensures |p| == |home| + 5 && p[..|home|] == home
      ensures p[|home| + 4] == name
    {
      ModelDir() + [name]
    }

    /** The two folders never coincide, and each determines its model. */
    lemma ModelPathsAreDistinct(a: string, b: string)
      ensures CacheModelPath(a) != AppModelPath(b)
      ensures CacheModelPath(a) == CacheModelPath(b) ==> a == b
      ensures AppModelPath(a) == AppModelPath(b) ==> a == b
    {
      var n := |home|;
      if CacheModelPath(a) == CacheModelPath(b) {
        var pre := "faster-whisper-";
        assert pre + a == pre + b;
        assert (pre + a)[|pre|..] == a && (pre + b)[|pre|..] == b;
      }
      if AppModelPath(a) == AppModelPath(b) {
        assert AppModelPath(a)[n + 4] == a;
      }
    }

    /** Where a model is when `files` are the paths that exist: the cache
        first, then the application folder. */
    function LocationAmong(name: string, files: set<Path>): Location {
      if CacheModelPath(name) in files then Cache
      else if AppModelPath(name) in files then App
      else Nowhere
    }

    /** Where a model is now. */
    function LocationOf(name: string): Location
      reads this
    {
      LocationAmong(name, present)
    }

    /** `check_model_location`: `(False, 'none')` when no model is selected,
        a `ValueError` for a name outside the table, and otherwise the
        location with the cache preferred. */
    function CheckModelLocation(name: Option<string>): (r: Result<(bool, string)>)
      reads this
      ensures name.None? ==> r == Ok((false, "none"))
      ensures name.Some? && !IsAvailable(name.value) ==> r == Err(InvalidName(name.value))
      ensures name.Some? && IsAvailable(name.value) ==> r.Ok?
      ensures r.Ok? ==> r.value.1 in {"cache", "app", "none"} && (r.value.0 <==> r.value.1 != "none")
      ensures r.Ok? && name.Some? ==>
        && (r.value.1 == "cache" <==> CacheModelPath(name.value) in present)
        && (r.value.1 == "app" <==> CacheModelPath(name.value) !in present && AppModelPath(name.value) in present)
    {
      match name
      case None => Ok((false, "none"))
      case Some(n) =>
        if !IsAvailable(n) then Err(InvalidName(n))
        else
          var l := LocationOf(n);
          Ok((l != Nowhere, LocationName(l)))
    }

    /** `get_model_path`: the cache folder when the model is there, the
        application folder otherwise; a missing selection fails in `Path /
        None`, an unknown one in `check_model_location`. */
    function GetModelPath(): (r: Result<Path>)
      reads this
      ensures currentModel.None? ==> r.Err?
      ensures currentModel.Some? ==> (r.Ok? <==> IsAvailable(currentModel.value))
      ensures r.Ok? ==>
        var m := currentModel.value;
        (r.value == CacheModelPath(m) <==> CheckModelLocation(currentModel) == Ok((true, "cache")))
        && (r.value != CacheModelPath(m) ==> r.value == AppModelPath(m))
    {
      match CheckModelLocation(currentModel)
      case Err(msg) => Err(msg)
      case Ok((_, location)) =>
        if currentModel.None? then Err("unsupported operand type(s) for /: 'PosixPath' and 'NoneType'")
        else if location == "cache" then Ok(CacheModelPath(currentModel.value))
        else Ok(AppModelPath(currentModel.value))
    }

    /** The path `get_model_path` gives exists exactly when the selected
        model is installed somewhere. */
    lemma ModelPathExistsIffInstalled()
      requires currentModel.Some? && IsAvailable(currentModel.value)
      ensures GetModelPath().Ok?
      ensures GetModelPath().value in present <==> CheckModelLocation(currentModel).value.0
    {
      ModelPathsAreDistinct(currentModel.value, currentModel.value);
    }

    /** `get_model_info`: the table entry, or a `ValueError` for an unknown name. */
    function GetModelInfo(name: string): (r: Result<ModelInfo>)
      ensures r.Ok? <==> IsAvailable(name)
      ensures r.Ok? ==> r.value == Catalogue(name)
      ensures r.Err? ==> r.msg == "Unknown model: " + name + ". Available models: ['tiny', 'base', 'small', 'medium', 'large']"
    {
      if IsAvailable(name) then Ok(Catalogue(name))
      else Err("Unknown model: " + name + ". Available models: ['tiny', 'base', 'small', 'medium', 'large']")
    }

    /** `set_active_model`: selects an installed model and records it in the
        configuration, keeping its other keys; any other name changes
        nothing. `saveFails` says whether writing the file fails, which
        `_save_config` only logs. */
    method SetActiveModel(name: string, saveFails: bool) returns (ok: bool, msg: string)
      modifies this`currentModel, this`configFile
      ensures ok <==> IsAvailable(name) && LocationOf(name) != Nowhere
      ensures !IsAvailable(name) ==> msg == InvalidName(name)
      ensures IsAvailable(name) && !ok ==> msg == "Model '" + name + "' not found. Please download it first"
      ensures !ok ==> currentModel == old(currentModel) && configFile == old(configFile)
      ensures ok ==> msg == "Successfully switched to model '" + name + "'"
      ensures ok ==> currentModel == Some(name)
      ensures ok ==> configFile == if saveFails then old(configFile)
                                   else Some(LoadedConfig(old(configFile))["current_model" := name])
      ensures ok && !saveFails ==> SavedModel(configFile) == Some(name)
    {
      if !IsAvailable(name) {
        return false, InvalidName(name);
      }
      var location := CheckModelLocation(Some(name));
      if location.value.0 {
        currentModel := Some(name);
        var config := LoadedConfig(configFile);
        config := config["current_model" := name];
        if !saveFails {
          configFile := Some(config);
        }
        return true, "Successfully switched to model '" + name + "'";
      } else {
        return false, "Model '" + name + "' not found. Please download it first";
      }
    }

    /** `download_model`, validation and post-check: an unknown name is
        refused before anything is fetched, and success is reported only when
        `check_model_location` finds the model afterwards. */
    method DownloadModel(name: string, outcome: DownloadOutcome) returns (ok: bool, msg: string)
      modifies this`present
      ensures present == if IsAvailable(name) && outcome.Fetched? then old(present) + outcome.added else old(present)
      ensures !IsAvailable(name) ==> !ok && msg == InvalidName(name)
      ensures ok <==> IsAvailable(name) && outcome.Fetched? && LocationOf(name) != Nowhere
      ensures ok ==> msg == "Model downloaded successfully to " + LocationName(LocationOf(name))
      ensures IsAvailable(name) && outcome.FetchRaised? ==> msg == "Error downloading model: " + outcome.error
      ensures IsAvailable(name) && outcome.Fetched? && !ok ==> msg == "Model download failed: Model not found after download"
    {
      if !IsAvailable(name) {
        return false, InvalidName(name);
      }
      match outcome
      case FetchRaised(e) =>
        return false, "Error downloading model: " + e;
      case Fetched(added) =>
        present := present + added;
        var location := CheckModelLocation(Some(name));
        if location.value.0 {
          return true, "Model downloaded successfully to " + location.value.1;
        } else {
          return false, "Model download failed: Model not found after download";
        }
    }
  }
}
