/** The FlyBase-at-NCBI genome database connector (`FlyBaseDB`): the checks its constructor makes
    on the configuration, the canonical name of the genome sequence file, and the download URLs of
    the genome sequence, the annotation and the protein sequences. */
module FlyBase {
  import opened Wrappers

  /** A value of the YAML configuration: a string, a list of strings, or a scalar of another kind
      (a number, a boolean, null). */
  datatype ConfigValue = Str(s: string) | StrList(items: seq<string>) | Scalar

  type Config = map<string, ConfigValue>

  /** Why the constructor rejects a configuration, in the order it checks: `config['source']`
      raises KeyError, the source assertion fails, the species assertion fails, or
      `config['species'].replace` raises AttributeError on a value that is not a string. */
  datatype InitError = NoSource | WrongSource | NoSpecies | SpeciesNotString

  /** The constructed connector: its label and its configuration. */
  datatype Connector = Connector(dbLabel: string, config: Config)

  /** The directory at NCBI that holds release 5.48 of the Drosophila melanogaster genome: the
      constructor's `specbase`, the same for every connector. */
  const SpecBase: string := "ftp://ftp.ncbi.nih.gov/genomes/Drosophila_melanogaster/RELEASE_5_48"

  /** `FlyBaseDB(label, conf)`: the configuration must name this connector as its source and give
      a species as a string (its spaces-to-underscores form is computed and discarded). */
  function New(dbLabel: string, conf: Config): (r: Result<Connector, InitError>)
    ensures r.Ok? <==>
      "source" in conf && conf["source"] == Str("ncbi_flybase") &&
      "species" in conf && conf["species"].Str?
    ensures r.Ok? ==> r.value == Connector(dbLabel, conf)
    ensures r == Err(NoSource) <==> "source" !in conf
    ensures r == Err(WrongSource) <==> "source" in conf && conf["source"] != Str("ncbi_flybase")
    ensures r == Err(NoSpecies) <==>
      "source" in conf && conf["source"] == Str("ncbi_flybase") && "species" !in conf
  {
    if "source" !in conf then Err(NoSource)
    else if conf["source"] != Str("ncbi_flybase") then Err(WrongSource)
    else if "species" !in conf then Err(NoSpecies)
    else if !conf["species"].Str? then Err(SpeciesNotString)
    else Ok(Connector(dbLabel, conf))
  }

  /** The name of the genome sequence file: the label with the suffix `.orig.fa.gz`. It depends on
      nothing else. */
  function GdnaFileName(db: Connector): (name: string)
    ensures |name| == |db.dbLabel| + 11
    ensures name[..|db.dbLabel|] == db.dbLabel && name[|db.dbLabel|..] == ".orig.fa.gz"
  {
    db.dbLabel + ".orig.fa.gz"
  }

  /** Connectors with the same label name their genome file alike whatever their configurations,
      and connectors with different labels name it differently. */
  lemma GdnaFileNameByLabel(a: Connector, b: Connector)
    ensures GdnaFileName(a) == GdnaFileName(b) <==> a.dbLabel == b.dbLabel
  {
    if GdnaFileName(a) == GdnaFileName(b) {
      assert a.dbLabel == GdnaFileName(a)[..|GdnaFileName(a)| - 11];
      assert b.dbLabel == GdnaFileName(b)[..|GdnaFileName(b)| - 11];
    }
  }

  /** Why `config['accessions']` cannot be iterated: the key is missing (KeyError) or the value is
      a scalar (TypeError). */
  datatype AccessionError = NoAccessions | NotIterable

  /** What `for acc in self.config['accessions']` iterates over: the items of a list, or the
      characters of a string, each as a string of its own. */
  function Accessions(conf: Config): (r: Result<seq<string>, AccessionError>)
    ensures r == Err(NoAccessions) <==> "accessions" !in conf
    ensures r == Err(NotIterable) <==> "accessions" in conf && conf["accessions"].Scalar?
    ensures r.Ok? && conf["accessions"].StrList? ==> r.value == conf["accessions"].items
    ensures r.Ok? && conf["accessions"].Str? ==>
      |r.value| == |conf["accessions"].s| &&
      forall i :: 0 <= i < |r.value| ==> r.value[i] == [conf["accessions"].s[i]]
  {
    if "accessions" !in conf then Err(NoAccessions)
    else
      match conf["accessions"]
      case StrList(items) => Ok(items)
      case Str(s) => Ok(seq(|s|, i requires 0 <= i < |s| => [s[i]]))
      case Scalar => Err(NotIterable)
  }

  /** The URL of one accession's file: `<specbase>/<accession><extension>`. */
  function Url(acc: string, ext: string): (url: string)
    ensures |url| == |SpecBase| + 1 + |acc| + |ext|
    ensures url[..|SpecBase| + 1] == SpecBase + "/"
    ensures url[|SpecBase| + 1..|url| - |ext|] == acc
    ensures url[|url| - |ext|..] == ext
  {
    SpecBase + "/" + acc + ext
  }

  /** The accession back from its URL. */
  function UrlAccession(url: string, ext: string): string
    requires |SpecBase| + 1 + |ext| <= |url|
  {
    url[|SpecBase| + 1..|url| - |ext|]
  }

  /** The URL keeps the accession: reading it back gives the accession. */
  lemma UrlAccessionInverse(acc: string, ext: string)
    ensures |SpecBase| + 1 + |ext| <= |Url(acc, ext)|
    ensures UrlAccession(Url(acc, ext), ext) == acc
  {
    var url := Url(acc, ext);
    assert url == SpecBase + "/" + (acc + ext);
    assert url[|SpecBase| + 1..] == acc + ext;
    assert url[|SpecBase| + 1..|url| - |ext|] == (acc + ext)[..|acc|];
  }

  /** Distinct accessions get distinct URLs of a kind. */
  lemma UrlInjective(a: string, b: string, ext: string)
    requires Url(a, ext) == Url(b, ext)
    ensures a == b
  {
    UrlAccessionInverse(a, ext);
    UrlAccessionInverse(b, ext);
  }

  /** The URLs of a list of accessions, in order. */
  function Urls(accessions: seq<string>, ext: string): (urls: seq<string>)
    ensures |urls| == |accessions|
    ensures forall i :: 0 <= i < |accessions| ==> urls[i] == Url(accessions[i], ext)
    decreases |accessions|
  {
    if accessions == [] then []
    else Urls(accessions[..|accessions| - 1], ext) + [Url(accessions[|accessions| - 1], ext)]
  }

  /** The loop shared by `gdnaurl`, `gff3url` and `proturl`: one URL per accession, appended in
      the order of the accessions. */
  method UrlsFor(accessions: seq<string>, ext: string) returns (urls: seq<string>)
    ensures urls == Urls(accessions, ext)
  {
    urls := [];
    var i := 0;
    while i < |accessions|
      invariant i <= |accessions|
      invariant urls == Urls(accessions[..i], ext)
    {
      var url := SpecBase + "/" + accessions[i] + ext;
      urls := urls + [url];
      i := i + 1;
      assert accessions[..i][..i - 1] == accessions[..i - 1];
    }
    assert accessions[..i] == accessions;
  }

  /** `gdnaurl`: the genome sequence (`.fna`) URLs. */
  method GdnaUrl(db: Connector) returns (r: Result<seq<string>, AccessionError>)
    ensures Accessions(db.config).Err? ==> r == Err(Accessions(db.config).error)
    ensures Accessions(db.config).Ok? ==> r == Ok(Urls(Accessions(db.config).value, ".fna"))
  {
    match Accessions(db.config)
    case Err(e) => r := Err(e);
    case Ok(accessions) =>
      var urls := UrlsFor(accessions, ".fna");
      r := Ok(urls);
  }

  /** `gff3url`: the annotation (`.gff`) URLs. */
  method Gff3Url(db: Connector) returns (r: Result<seq<string>, AccessionError>)
    ensures Accessions(db.config).Err? ==> r == Err(Accessions(db.config).error)
    ensures Accessions(db.config).Ok? ==> r == Ok(Urls(Accessions(db.config).value, ".gff"))
  {
    match Accessions(db.config)
    case Err(e) => r := Err(e);
    case Ok(accessions) =>
      var urls := UrlsFor(accessions, ".gff");
      r := Ok(urls);
  }

  /** `proturl`: the protein sequence (`.faa`) URLs. */
  method ProtUrl(db: Connector) returns (r: Result<seq<string>, AccessionError>)
    ensures Accessions(db.config).Err? ==> r == Err(Accessions(db.config).error)
    ensures Accessions(db.config).Ok? ==> r == Ok(Urls(Accessions(db.config).value, ".faa"))
  {
    match Accessions(db.config)
    case Err(e) => r := Err(e);
    case Ok(accessions) =>
      var urls := UrlsFor(accessions, ".faa");
      r := Ok(urls);
  }

  /** The three URL lists are aligned: entry i of each names the same accession, and they differ
      only in the extension. */
  lemma UrlKindsAligned(accessions: seq<string>, ext1: string, ext2: string, i: nat)
    requires i < |accessions|
    ensures var u1 := Urls(accessions, ext1)[i];
      var u2 := Urls(accessions, ext2)[i];
      |SpecBase| + 1 + |ext1| <= |u1| && |SpecBase| + 1 + |ext2| <= |u2| &&
      u1[..|u1| - |ext1|] == u2[..|u2| - |ext2|] &&
      UrlAccession(u1, ext1) == UrlAccession(u2, ext2) == accessions[i]
  {
    var acc := accessions[i];
    UrlAccessionInverse(acc, ext1);
    UrlAccessionInverse(acc, ext2);
    assert Url(acc, ext1)[..|Url(acc, ext1)| - |ext1|] == SpecBase + "/" + acc;
    assert Url(acc, ext2)[..|Url(acc, ext2)| - |ext2|] == SpecBase + "/" + acc;
  }

  /** The chromosome accessions of the D. melanogaster configuration, as the expected URLs of the
      connector's tests give them. */
  const DmelAccessions: seq<string> := [
    "CHR_X/NC_004354", "CHR_2/NT_033778", "CHR_2/NT_033779",
    "CHR_3/NT_033777", "CHR_3/NT_037436", "CHR_4/NC_004353"]

  /** The directory the tests' expected URLs share. */
  const TestDir: string := "ftp://ftp.ncbi.nih.gov/genomes/Drosophila_melanogaster/RELEASE_5_48/"

  /** The URLs the tests expect, one per chromosome arm, the X chromosome's first: with `.fna`
      for the genome, `.gff` for the annotation and `.faa` for the proteins. */
  lemma DmelUrls(ext: string)
    ensures Urls(DmelAccessions, ext) == [
      TestDir + "CHR_X/NC_004354" + ext,
      TestDir + "CHR_2/NT_033778" + ext,
      TestDir + "CHR_2/NT_033779" + ext,
      TestDir + "CHR_3/NT_033777" + ext,
      TestDir + "CHR_3/NT_037436" + ext,
      TestDir + "CHR_4/NC_004353" + ext]
  {
    assert SpecBase + "/" == TestDir;
    var u := Urls(DmelAccessions, ext);
    assert forall i :: 0 <= i < 6 ==> u[i] == TestDir + DmelAccessions[i] + ext;
  }

  /** The genome file name behind the tests' expected path `./Dmel/Dmel.orig.fa.gz`. */
  lemma DmelGdnaFileName(db: Connector)
    requires db.dbLabel == "Dmel"
    ensures GdnaFileName(db) == "Dmel.orig.fa.gz"
  {
  }
}
