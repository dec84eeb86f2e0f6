/**
 * `runReplacer` of index.ts and the part of the top level that feeds it:
 * walk the tree, hand the file list with the patterns and replacements to
 * the replacement library, and report on the records it returns. The
 * library (`replace.sync`) is a parameter: its matching and substitution
 * are not modelled, only the records it gives back are used.
 */
module Replacer {
  import opened DirWalk
  import opened KeyEscape
  import opened Report
  import opened Seqs

  /** `runReplacer`: returns the files it searched, everything it writes to standard output, and the change count. */
  method RunReplacer(dir: string, entries: seq<Entry>, from: seq<string>, to: seq<string>,
                     showHidden: bool, allowedExtensions: seq<string>, disallowedExtensions: seq<string>,
                     dry: bool, replaceSync: (seq<string>, seq<string>, seq<string>, bool) -> seq<Replaced>)
    returns (allFiles: seq<string>, written: string, count: nat)
    ensures allFiles == Listing(dir, entries, showHidden, Filters(allowedExtensions, disallowedExtensions))
    ensures WellNamed(entries) ==> NoDup(allFiles)
    ensures var x := replaceSync(allFiles, from, to, dry);
      count == |Changed(x)| && written == Lines(Changed(x)) + Summary(count, dry)
  {
    allFiles := Walk(dir, entries, showHidden, allowedExtensions, disallowedExtensions);
    if WellNamed(entries) {
      ListingNoDup(dir, entries, showHidden, Filters(allowedExtensions, disallowedExtensions));
    }
    var x := replaceSync(allFiles, from, to, dry);
    written, count := ReportResults(x, dry);
  }

  /** The top level once the mapping is loaded: escape the keys, take the values, run. */
  method RunMapping(dir: string, entries: seq<Entry>, mapping: seq<(string, string)>,
                    showHidden: bool, allowedExtensions: seq<string>, disallowedExtensions: seq<string>,
                    dry: bool, replaceSync: (seq<string>, seq<string>, seq<string>, bool) -> seq<Replaced>)
    returns (from: seq<string>, to: seq<string>, written: string, count: nat)
    ensures |from| == |to| == |mapping|
    ensures from == Patterns(mapping) && to == Replacements(mapping)
    ensures forall i :: 0 <= i < |mapping| ==> from[i] == EscapeKey(mapping[i].0)
    ensures forall i :: 0 <= i < |mapping| ==> Unescape(from[i]) == mapping[i].0 && to[i] == mapping[i].1
    ensures var files := Listing(dir, entries, showHidden, Filters(allowedExtensions, disallowedExtensions));
      var x := replaceSync(files, from, to, dry);
      count == |Changed(x)| && written == Lines(Changed(x)) + Summary(count, dry)
  {
    from := Patterns(mapping);
    to := Replacements(mapping);
    ListsRecoverMapping(mapping);
    var allFiles;
    allFiles, written, count := RunReplacer(dir, entries, from, to, showHidden,
                                            allowedExtensions, disallowedExtensions, dry, replaceSync);
  }
}
