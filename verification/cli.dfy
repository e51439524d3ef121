/** The entry point (src/main.py): choosing the stage from the first
    command-line argument, selecting the labelled-text files for the
    sentiment stage, and reading the cluster count back out of their names.

    Directory listing, file contents and the stages themselves are outside
    the model: the listing is a parameter and the stages are named by a
    `Command`. */
module Cli {
  import opened Common
  import opened Strings
  import opened Sorting

  /** `OUTPUT_DIRECTORY` of src/utils/utils.py. */
  const OutputDirectory: string := "./output"

  /** `os.getenv("CLUSTERS", "3")` when the variable is unset. */
  const DefaultClusters: int := 3

  const LabeledPrefix: string := "labeled_text"
  const JsonSuffix: string := ".json"

  const ArgumentErrorMessage: string :=
    "Argument must be [ --scraper CRAWL_LIMIT=<int> | --extract | --cluster CLUSTERS=<int> | --sentiment ]"

  // ---------------------------------------------------------------------
  // `main`: the flag dispatch

  /** The stage `main` runs. */
  datatype Command = Scraper | Extract | Cluster(nClusters: int) | Sentiment

  /** The flag each stage is selected by. */
  function Flag(c: Command): string {
    match c
    case Scraper => "--scraper"
    case Extract => "--extract"
    case Cluster(_) => "--cluster"
    case Sentiment => "--sentiment"
  }

  /** `main`: the first argument picks the stage; anything else, or no
      argument at all, raises the `ValueError` of `raise_argument_error`.
      `nClusters` is `int(N_CLUSTERS)`. */
  function Dispatch(args: seq<string>, nClusters: int): (r: Result<Command>)
    ensures r.Ok? <==> |args| > 0 && args[0] in {"--scraper", "--extract", "--cluster", "--sentiment"}
    ensures r.Ok? ==> Flag(r.value) == args[0]
    ensures r.Ok? && r.value.Cluster? ==> r.value.nClusters == nClusters
    ensures r.Err? ==> r.error == ValueError(ArgumentErrorMessage)
  {
    if |args| > 0 then
      if args[0] == "--scraper" then Ok(Scraper)
      else if args[0] == "--extract" then Ok(Extract)
      else if args[0] == "--cluster" then Ok(Cluster(nClusters))
      else if args[0] == "--sentiment" then Ok(Sentiment)
      else Err(ValueError(ArgumentErrorMessage))
    else Err(ValueError(ArgumentErrorMessage))
  }

  /** Only the first argument counts; the rest are ignored. */
  lemma DispatchIgnoresRest(args: seq<string>, nClusters: int)
    requires |args| > 0
    ensures Dispatch(args, nClusters) == Dispatch([args[0]], nClusters)
  {
  }

  /** Each stage's flag selects that stage. */
  lemma DispatchFlag(c: Command)
    ensures Dispatch([Flag(c)], if c.Cluster? then c.nClusters else 0) == Ok(c)
  {
  }

  // ---------------------------------------------------------------------
  // `sentiment`: selecting and ordering the labelled-text files

  predicate IsLabeledTextFile(name: string) {
    StartsWith(name, LabeledPrefix) && EndsWith(name, JsonSuffix)
  }

  /** The path under the output directory of a listed file. */
  function InOutput(name: string): string {
    OutputDirectory + "/" + name
  }

  /** The list comprehension of lines 84-88: the listed names that start
      with "labeled_text" and end with ".json", as output paths, in listing
      order. */
  function LabeledJsonList(names: seq<string>): (paths: seq<string>)
    ensures |paths| <= |names|
    ensures forall p :: p in paths <==> exists n :: n in names && IsLabeledTextFile(n) && p == InOutput(n)
  {
    if |names| == 0 then []
    else
      var rest := LabeledJsonList(names[1..]);
      assert forall n :: n in names[1..] ==> n in names;
      assert forall n :: n in names && n != names[0] ==> n in names[1..];
      if IsLabeledTextFile(names[0]) then [InOutput(names[0])] + rest else rest
  }

  /** Each selected name gives its path once per listing of the name, and
      no other name gives that path. */
  lemma {:induction false} LabeledJsonCount(names: seq<string>, n: string)
    ensures multiset(LabeledJsonList(names))[InOutput(n)] ==
      if IsLabeledTextFile(n) then multiset(names)[n] else 0
    decreases |names|
  {
    if |names| > 0 {
      LabeledJsonCount(names[1..], n);
      assert names == [names[0]] + names[1..];
      InOutputInjective(names[0]);
      SelectedHead(names, n);
    }
  }

  lemma SelectedHead(names: seq<string>, n: string)
    requires |names| > 0
    requires InOutput(names[0]) == InOutput(n) ==> names[0] == n
    ensures multiset(LabeledJsonList(names))[InOutput(n)] ==
      multiset(LabeledJsonList(names[1..]))[InOutput(n)] +
      (if IsLabeledTextFile(names[0]) && names[0] == n then 1 else 0)
  {
  }

  /** Different names lie at different paths. */
  lemma InOutputInjective(a: string)
    ensures forall b :: InOutput(a) == InOutput(b) ==> a == b
  {
    forall b | InOutput(a) == InOutput(b) ensures a == b {
      var k := |OutputDirectory + "/"|;
      assert a == InOutput(a)[k..] && b == InOutput(b)[k..];
    }
  }

  /** The selection of a listing split in two is the selection of the first
      part followed by that of the second: paths keep the listing order. */
  lemma {:induction false} LabeledJsonListAppend(a: seq<string>, b: seq<string>)
    ensures LabeledJsonList(a + b) == LabeledJsonList(a) + LabeledJsonList(b)
    decreases |a|
  {
    if |a| > 0 {
      assert (a + b)[1..] == a[1..] + b;
      assert (a + b)[0] == a[0];
      LabeledJsonListAppend(a[1..], b);
    } else {
      assert a + b == b;
    }
  }

  /** `sorted(labeled_json_list)`: the order the files are processed in. */
  function ProcessingOrder(names: seq<string>): (paths: seq<string>)
    ensures multiset(paths) == multiset(LabeledJsonList(names))
    ensures forall i, j :: 0 <= i < j < |paths| ==> StrLe(paths[i], paths[j])
  {
    SortBy(LabeledJsonList(names), Identity)
  }

  function Identity(s: string): string {
    s
  }

  // ---------------------------------------------------------------------
  // `_get_n_clusters_from_filename`

  /** `v` is the maximal run of digits at `i`, and no digit comes before it. */
  predicate FirstRunAt(s: string, i: int, v: string) {
    && 0 <= i && i + |v| <= |s|
    && s[i..i + |v|] == v
    && |v| > 0 && AllDigits(v)
    && NoDigits(s[..i])
    && (i + |v| == |s| || !IsDigit(s[i + |v|]))
  }

  /** The index of the first digit at or after `i`. */
  function FirstDigitFrom(s: string, i: nat): (r: Option<nat>)
    requires i <= |s|
    ensures r.Some? ==> i <= r.value < |s| && IsDigit(s[r.value])
    ensures r.Some? ==> forall k :: i <= k < r.value ==> !IsDigit(s[k])
    ensures r.None? ==> forall k :: i <= k < |s| ==> !IsDigit(s[k])
    decreases |s| - i
  {
    if i == |s| then None
    else if IsDigit(s[i]) then Some(i)
    else FirstDigitFrom(s, i + 1)
  }

  /** The end of the run of digits that starts at `i`. */
  function RunEnd(s: string, i: nat): (e: nat)
    requires i <= |s|
    ensures i <= e <= |s|
    ensures forall k :: i <= k < e ==> IsDigit(s[k])
    ensures e == |s| || !IsDigit(s[e])
    decreases |s| - i
  {
    if i < |s| && IsDigit(s[i]) then RunEnd(s, i + 1) else i
  }

  /** `re.findall(r"\d+", filename)[0]`: the first maximal run of digits;
      `IndexError` when the name has no digit at all. */
  function FirstDigitRun(filename: string): (r: Result<string>)
    ensures r.Ok? <==> exists k :: 0 <= k < |filename| && IsDigit(filename[k])
    ensures r.Ok? ==> exists i :: FirstRunAt(filename, i, r.value)
    ensures r.Err? ==> r.error == IndexError
  {
    match FirstDigitFrom(filename, 0)
    case None => Err(IndexError)
    case Some(i) =>
      var e := RunEnd(filename, i);
      var v := filename[i..e];
      assert FirstRunAt(filename, i, v);
      Ok(v)
  }

  /** The first run of digits is unique: where it starts and what it holds. */
  lemma FirstRunUnique(s: string, i: int, v: string, j: int, w: string)
    requires FirstRunAt(s, i, v) && FirstRunAt(s, j, w)
    ensures i == j && v == w
  {
    // The text before each run has no digit, and each run is all digits,
    // so neither starts nor stops before the other.
    assert forall k :: 0 <= k < i ==> !IsDigit(s[k]) by {
      forall k | 0 <= k < i ensures !IsDigit(s[k]) { assert s[..i][k] == s[k]; }
    }
    assert forall k :: 0 <= k < j ==> !IsDigit(s[k]) by {
      forall k | 0 <= k < j ensures !IsDigit(s[k]) { assert s[..j][k] == s[k]; }
    }
    assert forall k :: i <= k < i + |v| ==> IsDigit(s[k]) by {
      forall k | i <= k < i + |v| ensures IsDigit(s[k]) { assert s[k] == v[k - i]; }
    }
    assert forall k :: j <= k < j + |w| ==> IsDigit(s[k]) by {
      forall k | j <= k < j + |w| ensures IsDigit(s[k]) { assert s[k] == w[k - j]; }
    }
    assert IsDigit(s[i]) && IsDigit(s[j]);
  }

  /** The first run of a name with a digit-free prefix and a run of digits
      followed by a non-digit (or nothing) is that run. */
  lemma {:induction false} FirstDigitRunOf(prefix: string, digits: string, suffix: string)
    requires NoDigits(prefix) && |digits| > 0 && AllDigits(digits)
    requires |suffix| == 0 || !IsDigit(suffix[0])
    ensures FirstDigitRun(prefix + digits + suffix) == Ok(digits)
  {
    var s := prefix + digits + suffix;
    var i := |prefix|;
    assert s[i..i + |digits|] == digits;
    assert s[..i] == prefix;
    assert i + |digits| < |s| ==> s[i + |digits|] == suffix[0];
    assert FirstRunAt(s, i, digits);
    assert IsDigit(s[i]);
    var r := FirstDigitRun(s);
    var j :| FirstRunAt(s, j, r.value);
    FirstRunUnique(s, i, digits, j, r.value);
  }

  /** The name `cluster` writes the labelled documents to, for `n` clusters. */
  function LabeledTextName(n: nat): string {
    LabeledPrefix + ("_" + NatToString(n) + "_clusters") + JsonSuffix
  }

  /** The round trip of lines 76-77 and 99: the file `cluster` writes for
      `n` clusters is selected, its path is the path written, and reading
      the count back out of it gives the decimal form of `n`. */
  lemma ClusterCountRoundTrip(n: nat)
    ensures IsLabeledTextFile(LabeledTextName(n))
    ensures InOutput(LabeledTextName(n)) ==
      "./output/labeled_text_" + NatToString(n) + "_clusters.json"
    ensures FirstDigitRun(InOutput(LabeledTextName(n))) == Ok(NatToString(n))
  {
    var digits := NatToString(n);
    Affixes(LabeledPrefix, "_" + digits + "_clusters", JsonSuffix);
    WrittenPath(digits);
    FirstDigitRunOf("./output/labeled_text_", digits, "_clusters.json");
  }

  /** With the default cluster count the sentiment stage reads "3" back
      from the file the cluster stage writes. */
  lemma DefaultClusterFile()
    ensures DefaultClusters >= 0
    ensures IsLabeledTextFile(LabeledTextName(DefaultClusters as nat))
    ensures FirstDigitRun(InOutput(LabeledTextName(DefaultClusters as nat))) == Ok("3")
  {
    ClusterCountRoundTrip(3);
    assert NatToString(3) == "3";
  }

  /** A concatenation starts with its first part and ends with its last. */
  lemma Affixes(a: string, b: string, c: string)
    ensures StartsWith(a + b + c, a) && EndsWith(a + b + c, c)
  {
    assert (a + b + c)[..|a|] == a;
    assert (a + b + c)[|a + b|..] == c;
  }

  /** The path the listing gives for the file named after `digits` is the
      path the cluster stage writes to. */
  lemma WrittenPath(digits: string)
    ensures InOutput(LabeledPrefix + ("_" + digits + "_clusters") + JsonSuffix) ==
      "./output/labeled_text_" + digits + "_clusters.json"
    ensures NoDigits("./output/labeled_text_")
  {
    var p := "./output/labeled_text_";
    var q := "_clusters.json";
    var lhs := InOutput(LabeledPrefix + ("_" + digits + "_clusters") + JsonSuffix);
    assert |lhs| == |p| + |digits| + |q|;
    forall i | 0 <= i < |lhs| ensures lhs[i] == (p + digits + q)[i] {
      if i < |p| {
      } else if i < |p| + |digits| {
      } else {
      }
    }
  }

  /** A selected file whose name holds no digit, such as `labeled_text.json`,
      makes the count lookup raise `IndexError`. */
  lemma NoCountInName()
    ensures IsLabeledTextFile("labeled_text.json")
    ensures FirstDigitRun(InOutput("labeled_text.json")) == Err(IndexError)
  {
    assert "labeled_text.json"[..|LabeledPrefix|] == LabeledPrefix;
    assert "labeled_text.json"[|"labeled_text.json"| - |JsonSuffix|..] == JsonSuffix;
    assert NoDigits(InOutput("labeled_text.json"));
  }

  // ---------------------------------------------------------------------
  // The loop of `sentiment`

  /** The cluster counts the loop of lines 101-113 reads, in processing
      order, or the `IndexError` of the first selected name without a
      digit. */
  function ClusterCounts(paths: seq<string>): (r: Result<seq<string>>)
    ensures r.Err? <==> exists i :: 0 <= i < |paths| && FirstDigitRun(paths[i]).Err?
    ensures r.Err? ==> r.error == IndexError
    ensures r.Ok? ==> |r.value| == |paths|
    ensures r.Ok? ==> forall i :: 0 <= i < |paths| ==> Ok(r.value[i]) == FirstDigitRun(paths[i])
  {
    if |paths| == 0 then Ok([])
    else
      var n :- FirstDigitRun(paths[0]);
      var rest := ClusterCounts(paths[1..]);
      assert forall i :: 1 <= i < |paths| ==> paths[i] == paths[1..][i - 1];
      if rest.Err? then
        var i :| 0 <= i < |paths[1..]| && FirstDigitRun(paths[1..][i]).Err?;
        assert FirstDigitRun(paths[i + 1]).Err?;
        Err(rest.error)
      else
        Ok([n] + rest.value)
  }

  /** The counts the sentiment stage reads from a directory listing: the
      first digit run of each selected path, in processing order, or the
      `IndexError` raised when some selected name holds no digit. */
  function SentimentCounts(names: seq<string>): (r: Result<seq<string>>)
    ensures r.Err? <==> exists n :: n in names && IsLabeledTextFile(n) && FirstDigitRun(InOutput(n)).Err?
    ensures r.Err? ==> r.error == IndexError
    ensures r.Ok? ==> |r.value| == |ProcessingOrder(names)| == |LabeledJsonList(names)|
    ensures r.Ok? ==> forall i :: 0 <= i < |r.value| ==> FirstDigitRun(ProcessingOrder(names)[i]) == Ok(r.value[i])
  {
    var order := ProcessingOrder(names);
    assert |order| == |multiset(order)| == |LabeledJsonList(names)|;
    OrderMembers(names);
    var r := ClusterCounts(order);
    SomeFailing(order, names, s => FirstDigitRun(s).Err?);
    r
  }

  /** A property holds of some processed path exactly when it holds of the
      path of some selected name. */
  lemma SomeFailing(order: seq<string>, names: seq<string>, bad: string -> bool)
    requires forall p :: p in order <==> exists n :: n in names && IsLabeledTextFile(n) && p == InOutput(n)
    ensures (exists i :: 0 <= i < |order| && bad(order[i])) <==>
      exists n :: n in names && IsLabeledTextFile(n) && bad(InOutput(n))
  {
    if exists i :: 0 <= i < |order| && bad(order[i]) {
      var i :| 0 <= i < |order| && bad(order[i]);
      assert order[i] in order;
    }
    if exists n :: n in names && IsLabeledTextFile(n) && bad(InOutput(n)) {
      var n :| n in names && IsLabeledTextFile(n) && bad(InOutput(n));
      assert InOutput(n) in order;
      var i :| 0 <= i < |order| && order[i] == InOutput(n);
    }
  }

  /** The paths processed are exactly those of the selected names. */
  lemma OrderMembers(names: seq<string>)
    ensures forall p :: p in ProcessingOrder(names) <==>
      exists n :: n in names && IsLabeledTextFile(n) && p == InOutput(n)
  {
    var order := ProcessingOrder(names);
    forall p ensures p in order <==> p in LabeledJsonList(names) {
      assert p in order <==> p in multiset(order);
      assert p in LabeledJsonList(names) <==> p in multiset(LabeledJsonList(names));
    }
  }
}
