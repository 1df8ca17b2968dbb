/**
 * Loading the report configuration: the file is read first, then the
 * decoder is chosen from the path's extension; only "yaml" and "yml" are
 * decoded, every other extension is an unknown file type. Reading and YAML
 * decoding are inputs.
 */
module Config {
  import opened Wrappers
  import Quoting

  datatype ReportConfig = ReportConfig(title: string, issueLabel: string)

  datatype Config = Config(title: string, reports: seq<ReportConfig>)

  /** The three ways loading fails; `UnknownFileType` is the sentinel `ErrUnknownFileType`. */
  datatype LoadError =
    | ReadFailed(path: string, cause: string)
    | UnknownFileType
    | DecodeFailed(cause: string)
  {
    /** The error text, as the `fmt.Errorf` wrappers and the sentinel spell it. */
    function Message(): string {
      match this
      case ReadFailed(p, c) => "reading config file " + Quoting.Quote(p) + ": " + c
      case UnknownFileType => "unknown file type"
      case DecodeFailed(c) => "unmarshalling config: " + c
    }
  }

  /** Where the final element of a slash-separated path starts: just after its last `/`. */
  function FinalElementStart(path: string): (k: nat)
    ensures k <= |path|
    ensures k > 0 ==> path[k - 1] == '/'
    ensures forall i | k <= i < |path| :: path[i] != '/'
  {
    if path == [] || path[|path| - 1] == '/' then |path| else FinalElementStart(path[..|path| - 1])
  }

  /**
   * `filepath.Ext` on a slash-separated path: the suffix from the last dot
   * of the final path element, or "" when that element has no dot.
   */
  function Ext(path: string): (e: string)
    ensures |e| <= |path| - FinalElementStart(path) && e == path[|path| - |e|..]
    ensures e != [] ==> e[0] == '.' && forall k | 1 <= k < |e| :: e[k] != '.'
    ensures e == [] ==> forall i | FinalElementStart(path) <= i < |path| :: path[i] != '.'
  {
    if path == [] then ""
    else
      var c := path[|path| - 1];
      var init := path[..|path| - 1];
      if c == '/' then ""
      else if c == '.' then "."
      else
        var e := Ext(init);
        assert FinalElementStart(path) == FinalElementStart(init);
        if e == [] then "" else e + [c]
  }

  /** `strings.TrimPrefix(filepath.Ext(path), ".")`. */
  function Extension(path: string): (x: string)
    ensures Ext(path) != [] ==> Ext(path) == "." + x
    ensures Ext(path) == [] ==> x == []
  {
    var e := Ext(path);
    if e != [] && e[0] == '.' then e[1..] else e
  }

  /** The extensions whose files are decoded as YAML. */
  predicate IsYamlExtension(x: string) {
    x == "yaml" || x == "yml"
  }

  /**
   * `LoadConfig` with the file's content (or the read error) as `read` and
   * the YAML decoder as `decode`.
   */
  function LoadConfig(path: string, read: Result<seq<bv8>, string>, decode: seq<bv8> -> Result<Config, string>)
    : (r: Result<Config, LoadError>)
    ensures read.Failure? ==> r == Failure(ReadFailed(path, read.error))
    ensures read.Success? && !IsYamlExtension(Extension(path)) ==> r == Failure(UnknownFileType)
    ensures read.Success? && IsYamlExtension(Extension(path)) && decode(read.value).Failure? ==>
      r == Failure(DecodeFailed(decode(read.value).error))
    ensures r.Success? <==>
      read.Success? && IsYamlExtension(Extension(path)) && decode(read.value).Success?
    ensures r.Success? ==> r.value == decode(read.value).value
  {
    match read
    case Failure(e) => Failure(ReadFailed(path, e))
    case Success(data) =>
      match Extension(path)
      case "yaml" | "yml" =>
        (match decode(data)
         case Failure(e) => Failure(DecodeFailed(e))
         case Success(config) => Success(config))
      case _ => Failure(UnknownFileType)
  }

  /** One step of `Ext`: a last character other than `/` and `.` extends a non-empty extension. */
  lemma ExtStep(init: string, c: char)
    requires c != '/' && c != '.'
    ensures Ext(init + [c]) == if Ext(init) == [] then [] else Ext(init) + [c]
  {
    assert (init + [c])[..|init|] == init;
  }

  /** After a path ending in a dot, every further character without dot or slash extends the extension. */
  lemma {:induction false} ExtExtends(p: string, x: string)
    requires Ext(p) == "."
    requires '.' !in x && '/' !in x
    ensures Ext(p + x) == "." + x
  {
    if x == [] {
      assert p + x == p;
    } else {
      var x', c := x[..|x| - 1], x[|x| - 1];
      assert c in x;
      ExtExtends(p, x');
      assert p + x == (p + x') + [c];
      ExtStep(p + x', c);
      assert ("." + x') + [c] == "." + x;
    }
  }

  /** The extension of a file name is the text after its last dot. */
  lemma ExtAfterLastDot(base: string, x: string)
    requires '.' !in x && '/' !in x
    ensures Ext(base + "." + x) == "." + x
  {
    var p := base + ".";
    assert p[..|p| - 1] == base;
    assert Ext(p) == ".";
    ExtExtends(p, x);
  }

  /** A dot in a directory name is not an extension. */
  lemma NoExtAfterSlash(dir: string, name: string)
    requires '.' !in name && '/' !in name
    ensures Ext(dir + "/" + name) == ""
  {
    var path := dir + "/" + name;
    assert path[|dir|] == '/';
    var k := FinalElementStart(path);
    assert k > |dir|;
  }

  /**
   * The extension is matched exactly and case-sensitively, only the final
   * path element counts, and a failed read is reported before the
   * extension is looked at.
   */
  lemma LoadConfigExamples(data: seq<bv8>, decode: seq<bv8> -> Result<Config, string>)
    ensures LoadConfig("config.YAML", Success(data), decode) == Failure(UnknownFileType)
    ensures LoadConfig("conf.d/config", Success(data), decode) == Failure(UnknownFileType)
    ensures LoadConfig("a.b.yml", Success(data), decode) == LoadConfig("config.yaml", Success(data), decode)
    ensures LoadConfig("config.json", Failure("no such file"), decode)
      == Failure(ReadFailed("config.json", "no such file"))
  {
    ExampleUpperCase();
    ExampleDirectory();
    ExampleYml();
  }

  lemma ExampleUpperCase() ensures Extension("config.YAML") == "YAML" {
    ExtAfterLastDot("config", "YAML");
    assert "config" + "." + "YAML" == "config.YAML";
  }

  lemma ExampleDirectory() ensures Extension("conf.d/config") == "" {
    NoExtAfterSlash("conf.d", "config");
    assert "conf.d" + "/" + "config" == "conf.d/config";
  }

  lemma ExampleYml() ensures Extension("a.b.yml") == "yml" && Extension("config.yaml") == "yaml" {
    ExtAfterLastDot("a.b", "yml");
    assert "a.b" + "." + "yml" == "a.b.yml";
    ExtAfterLastDot("config", "yaml");
    assert "config" + "." + "yaml" == "config.yaml";
  }
}
