/**
 * The name of the file the export button downloads: a fixed prefix, the
 * date label with its slashes turned into dashes, and the `.html` suffix.
 */
module Export {

  /** "TabLeaf收藏夹_": the application name, the word for "bookmarks", an underscore. */
  const Prefix: string := "TabLeaf\U{6536}\U{85CF}\U{5939}_"
  const Suffix: string := ".html"

  /** `s.replace(/\//g, '-')`: every slash becomes a dash, every other character stays. */
  function ReplaceSlashes(s: string): (r: string)
    ensures |r| == |s|
    ensures forall i :: 0 <= i < |s| ==> r[i] == if s[i] == '/' then '-' else s[i]
  {
    if s == [] then []
    else [if s[0] == '/' then '-' else s[0]] + ReplaceSlashes(s[1..])
  }

  /** The `download` name for the date label the browser's locale gives. */
  function DownloadName(dateLabel: string): string
  {
    Prefix + ReplaceSlashes(dateLabel) + Suffix
  }

  /**
   * The name is the prefix, a date part as long as the label and free of
   * slashes, and the suffix; so it names a file, not a path.
   */
  lemma DownloadNameShape(dateLabel: string)
    ensures var name := DownloadName(dateLabel);
      && |name| == |Prefix| + |dateLabel| + |Suffix|
      && name[..|Prefix|] == Prefix
      && name[|name| - |Suffix|..] == Suffix
      && '/' !in name[|Prefix|..|name| - |Suffix|]
  {
    var name := DownloadName(dateLabel);
    var middle := ReplaceSlashes(dateLabel);
    assert name[|Prefix|..|name| - |Suffix|] == middle;
    assert '/' !in middle by {
      forall i | 0 <= i < |middle|
        ensures middle[i] != '/'
      {
      }
    }
  }

  /** A label without slashes is kept as it is. */
  lemma SlashFreeLabelKept(dateLabel: string)
    requires '/' !in dateLabel
    ensures DownloadName(dateLabel) == Prefix + dateLabel + Suffix
  {
    assert ReplaceSlashes(dateLabel) == dateLabel;
  }

  /** Replacing the slashes a second time changes nothing. */
  lemma ReplaceSlashesIdempotent(s: string)
    ensures ReplaceSlashes(ReplaceSlashes(s)) == ReplaceSlashes(s)
  {
  }

  /** Labels that differ at a position holding neither a slash nor a dash give different names. */
  lemma DownloadNameDistinguishes(a: string, b: string, i: nat)
    requires |a| == |b| && i < |a| && a[i] != b[i] && a[i] !in "/-" && b[i] !in "/-"
    ensures DownloadName(a) != DownloadName(b)
  {
    assert DownloadName(a)[|Prefix| + i] == a[i];
    assert DownloadName(b)[|Prefix| + i] == b[i];
  }
}
