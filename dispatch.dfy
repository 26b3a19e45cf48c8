/**
 * annotateMSA, option checks and choice of annotation backend. Whether the
 * default Pfam database and the default Pfam text file exist on disk is
 * given as two booleans.
 */
module Dispatch {
  import opened Wrappers

  /** The parsed command-line options the decision looks at (`-a`, `-g`, `-p`, `-d`). */
  datatype Options = Options(
    annot: string,
    giList: Option<string>,
    pfamseq: Option<string>,
    pfamdb: Option<string>)

  /** Why the script exits before annotating. */
  datatype ExitReason = UnknownMethod | MissingGiList

  /**
   * What the script goes on to do. A `None` path means the backend is
   * called without one and falls back to its configured default file.
   */
  datatype Action =
    | Exit(reason: ExitReason)
    | PfamDb(db: Option<string>)
    | PfamTxt(txt: Option<string>)
    | Ncbi(giList: string)
    | Nothing

  function Choose(o: Options, defaultDbExists: bool, defaultTxtExists: bool): (a: Action)
    ensures a.Exit? <==> (o.annot != "pfam" && o.annot != "ncbi") || (o.annot == "ncbi" && o.giList.None?)
    ensures a == Exit(UnknownMethod) <==> o.annot != "pfam" && o.annot != "ncbi"
    ensures a.Ncbi? <==> o.annot == "ncbi" && o.giList.Some?
    ensures a.Ncbi? ==> o.giList == Some(a.giList)
    ensures a.PfamDb? || a.PfamTxt? || a.Nothing? ==> o.annot == "pfam"
    ensures o.annot == "pfam" && o.pfamdb.Some? ==> a == PfamDb(o.pfamdb)
    ensures o.annot == "pfam" && o.pfamdb.None? && o.pfamseq.Some? ==> a == PfamTxt(o.pfamseq)
    ensures a == PfamDb(None) <==>
              o.annot == "pfam" && o.pfamdb.None? && o.pfamseq.None? && defaultDbExists
    ensures a == PfamTxt(None) <==>
              o.annot == "pfam" && o.pfamdb.None? && o.pfamseq.None? && !defaultDbExists && defaultTxtExists
    ensures a.Nothing? <==>
              o.annot == "pfam" && o.pfamdb.None? && o.pfamseq.None? && !defaultDbExists && !defaultTxtExists
  {
    if o.annot != "pfam" && o.annot != "ncbi" then Exit(UnknownMethod)
    else if o.annot == "ncbi" && o.giList.None? then Exit(MissingGiList)
    else if o.annot == "pfam" then
      if o.pfamdb.Some? then PfamDb(o.pfamdb)
      else if o.pfamseq.Some? then PfamTxt(o.pfamseq)
      else if defaultDbExists then PfamDb(None)
      else if defaultTxtExists then PfamTxt(None)
      else Nothing
    else Ncbi(o.giList.value)
  }

  /** The files on disk matter only for a Pfam run given neither `-d` nor `-p`. */
  lemma DiskIrrelevantWithPaths(o: Options, db1: bool, txt1: bool, db2: bool, txt2: bool)
    requires o.annot != "pfam" || o.pfamdb.Some? || o.pfamseq.Some?
    ensures Choose(o, db1, txt1) == Choose(o, db2, txt2)
  {
  }

  /** The other options are ignored once `-a` is neither `pfam` nor `ncbi`. */
  lemma UnknownMethodIgnoresRest(o: Options, o': Options, db: bool, txt: bool)
    requires o.annot == o'.annot && o.annot != "pfam" && o.annot != "ncbi"
    ensures Choose(o, db, txt) == Choose(o', db, txt) == Exit(UnknownMethod)
  {
  }
}
