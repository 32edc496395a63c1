/**
 * What `main` and `zeige_ergebnisse` in src/main.rs decide once the
 * arguments are parsed: a failed read is an error exit, count mode
 * reports the number of records, an empty result is the no-match
 * message, and otherwise every record is listed with its highlighted
 * line, its position and (for a positive window) its context block.
 *
 * File reads are parameters: `read` is the main read of the file,
 * `reread` the second read `zeige_kontext` makes for the context lines.
 */
module Driver {
  import opened Text
  import opened Wrappers
  import opened LineSplit
  import opened Scanner
  import opened Highlighter
  import opened Context

  /** The parsed command line: pattern, file path, `-i`, `-C N` (0 when absent), `-c`. */
  datatype Config = Config(pattern: Bytes, path: Bytes, ignoreCase: bool, context: nat, countOnly: bool)

  /** One listed record: the highlighted line, its line and column, and the context block if any. */
  datatype Entry = Entry(highlighted: seq<Segment>, line: Pos, column: Pos, context: Option<seq<ContextLine>>)

  datatype Outcome =
    | ReadFailed
    | Count(n: nat)
    | NoMatch(pattern: Bytes, path: Bytes)
    | Listing(entries: seq<Entry>)

  /** The process exit status: 1 after a failed read, 0 otherwise. */
  function ExitCode(o: Outcome): (code: nat)
    ensures code == 1 <==> o.ReadFailed?
    ensures code <= 1
  {
    if o.ReadFailed? then 1 else 0
  }

  /** The listing of `zeige_ergebnisse`, one entry per record, in record order. */
  function Listed(rs: seq<Match>, cfg: Config, reread: Option<Bytes>): seq<Entry>
    requires |cfg.pattern| > 0
  {
    seq(|rs|, j requires 0 <= j < |rs| =>
      Entry(Highlight(rs[j].text, cfg.pattern, cfg.ignoreCase), rs[j].line, rs[j].column,
            ContextBlock(reread, rs[j].line, cfg.context)))
  }

  /**
   * `main` after argument parsing: an error exactly when the read fails;
   * in count mode the number of records; the no-match message exactly
   * when count mode is off and there is no record; otherwise a listing
   * with one entry per record, in record order.
   */
  function Run(cfg: Config, read: Option<Bytes>, reread: Option<Bytes>): (o: Outcome)
    requires |cfg.pattern| > 0
    ensures o.ReadFailed? <==> read.None?
    ensures ExitCode(o) == 0 <==> read.Some?
    ensures read.Some? && cfg.countOnly ==> o == Count(|Search(read.value, cfg.pattern, cfg.ignoreCase)|)
    ensures o.NoMatch? <==> read.Some? && !cfg.countOnly && Search(read.value, cfg.pattern, cfg.ignoreCase) == []
    ensures o.NoMatch? ==> o == NoMatch(cfg.pattern, cfg.path)
    ensures o.Listing? <==> read.Some? && !cfg.countOnly && Search(read.value, cfg.pattern, cfg.ignoreCase) != []
    ensures o.Listing? ==> (
      && read.Some?
      && var rs := Search(read.value, cfg.pattern, cfg.ignoreCase);
         && |o.entries| == |rs|
         && forall j :: 0 <= j < |o.entries| ==> o.entries[j].line == rs[j].line && o.entries[j].column == rs[j].column)
    ensures read == Some([]) ==> o == if cfg.countOnly then Count(0) else NoMatch(cfg.pattern, cfg.path)
  {
    match read
    case None => ReadFailed
    case Some(contents) =>
      var rs := Search(contents, cfg.pattern, cfg.ignoreCase);
      if cfg.countOnly then Count(|rs|)
      else if rs == [] then NoMatch(cfg.pattern, cfg.path)
      else Listing(Listed(rs, cfg, reread))
  }

  /**
   * A listed entry shows the record `r`: its line and column, a
   * highlighted line that strips back to the record's line and decorates
   * the record's column with the line's own bytes, and a context block
   * that is present iff the window is positive and the re-read succeeded
   * and that never lists the record's own line.
   */
  ghost predicate ShowsRecord(e: Entry, r: Match, cfg: Config, reread: Option<Bytes>) {
    && e.line == r.line && e.column == r.column
    && Strip(e.highlighted) == r.text
    && r.column - 1 + |cfg.pattern| <= |r.text|
    && (r.column - 1, r.text[r.column - 1..r.column - 1 + |cfg.pattern|]) in Spans(e.highlighted, 0)
    && (e.context.Some? <==> cfg.context > 0 && reread.Some?)
    && (e.context.Some? ==> forall i :: 0 <= i < |e.context.value| ==> e.context.value[i].number != e.line)
  }

  /**
   * The entry `zeige_ergebnisse` builds for a record shows that record,
   * given that the record's column is one of the highlighted spans.
   */
  lemma EntryShowsRecord(cfg: Config, reread: Option<Bytes>, r: Match, e: Entry)
    requires |cfg.pattern| > 0
    requires r.column - 1 + |cfg.pattern| <= |r.text|
    requires (r.column - 1, r.text[r.column - 1..r.column - 1 + |cfg.pattern|])
               in Spans(Highlight(r.text, cfg.pattern, cfg.ignoreCase), 0)
    requires e == Entry(Highlight(r.text, cfg.pattern, cfg.ignoreCase), r.line, r.column,
                        ContextBlock(reread, r.line, cfg.context))
    ensures ShowsRecord(e, r, cfg, reread)
  {
    StripHighlight(r.text, cfg.pattern, cfg.ignoreCase);
    if cfg.context > 0 && reread.Some? {
      var block := e.context.value;
      forall i | 0 <= i < |block|
        ensures block[i].number != r.line
      {
        ContextBlockLines(reread.value, r.line, cfg.context, r.line);
      }
    }
  }

  /** Every listed entry shows its record, in record order. */
  lemma ListingShowsRecords(cfg: Config, contents: Bytes, reread: Option<Bytes>, j: nat)
    requires |cfg.pattern| > 0
    requires Run(cfg, Some(contents), reread).Listing?
    requires j < |Run(cfg, Some(contents), reread).entries|
    ensures var rs := Search(contents, cfg.pattern, cfg.ignoreCase);
      var es := Run(cfg, Some(contents), reread).entries;
      |es| == |rs| && ShowsRecord(es[j], rs[j], cfg, reread)
  {
    var rs := Search(contents, cfg.pattern, cfg.ignoreCase);
    var es := Run(cfg, Some(contents), reread).entries;
    assert es == Listed(rs, cfg, reread);
    RecordHighlighted(contents, cfg.pattern, cfg.ignoreCase, rs[j]);
    EntryShowsRecord(cfg, reread, rs[j], es[j]);
  }
}
