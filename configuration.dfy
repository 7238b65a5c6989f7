/** The run configuration: immutable once loaded, shared by both revisions. */
module Configuration {
  import opened Strings

  /** The render template of one citation command (its nine string slots). */
  datatype CmdFormat = CmdFormat(
    citeStart: string,
    sepPrenote: string,
    author: string,          // knows %AUTHOR%, %NUMERIC% and %CG<n>%
    sepAuthorYear: string,
    year: string,            // knows %YEAR% and %CG<n>%
    sepSameAuthorYear: string,
    sepRef: string,
    sepPostnote: string,
    citeEnd: string)

  /** How author lists read from bib entries are written out. */
  datatype BibOptions = BibOptions(
    maxAuthors: int,
    sepAuthorsFirst: string,
    authorSerialComma: bool,
    sepAuthorsLast: string,
    etAl: string)

  /** How bbl entries are found (`regex`, with %REFKEY%) and turned into tokens. */
  datatype BblOptions = BblOptions(regex: string, author: string, year: string)

  datatype Config = Config(
    encoding: string,
    latexdiffArgs: string,
    gitForceUnixPathsep: bool,
    refSingleWord: bool,
    bib: BibOptions,
    bbl: BblOptions,
    cmdFormat: map<string, CmdFormat>)

  /** The built-in settings. */
  function Defaults(): Config {
    Config(
      "utf-8",
      "",
      true,
      true,
      BibOptions(2, ", ", true, " and ", " et~al."),
      BblOptions(
        @"\\bibitem\[{((?:(?!^$).)*?)\(((?:(?!^$).)*?)(?:{\\natexlab{(.?)}})?\)((?:(?!^$).)*?)}\]{%REFKEY%}",
        "%CG1%",
        "%CG2%%CG3%"),
      map["citep" := CitepFormat, "citet" := CitetFormat, "cite" := CiteFormat])
  }

  /** The built-in formats: `\citep` in brackets, `\citet` and `\cite` with the year in brackets. */
  const CitepFormat: CmdFormat := CmdFormat("[", " ", "\\textit{%AUTHOR%}", ", ", "%YEAR%", ", ", "; ", ", ", "]")
  const CitetFormat: CmdFormat := CmdFormat("", " ", "\\textit{%AUTHOR%}", " ", "[%YEAR%]", ", ", "; ", ", ", "")
  const CiteFormat: CmdFormat := CmdFormat("", " ", "\\textit{%AUTHOR%}", " ", "[%YEAR%]", ", ", "; ", ", ", "")

  /**
   * Some command writes an author or a year.  When none does (numeric or
   * code-style citations), bib entries are neither read nor resolved.
   */
  predicate UsesAuthorYear(cfg: Config) {
    exists c :: c in cfg.cmdFormat &&
      (Contains(cfg.cmdFormat[c].author, "%AUTHOR%") || Contains(cfg.cmdFormat[c].year, "%YEAR%"))
  }

  /** The built-in settings are author/year settings. */
  lemma DefaultsUseAuthorYear()
    ensures UsesAuthorYear(Defaults())
  {
    var f := CitepFormat;
    assert "citep" in Defaults().cmdFormat && Defaults().cmdFormat["citep"] == f;
    assert f.year == "%YEAR%";
    ContainsAt(f.year, "%YEAR%", 0);
  }
}
