/** Start-up configuration: the content root derived from the working directory, and the
    connection string with its content-root placeholder filled in. */
module EFServiceProvider {
  import opened Wrappers
  import opened Sequences
  import opened Strings

  // ---------------------------------------------------------------------------------------
  // The content root

  /** The marker that ends the content root in a build output directory. */
  const BinSeparator: string := "\\bin\\"

  /** `StringSplitOptions.RemoveEmptyEntries`: the non-empty pieces, in order. */
  function RemoveEmptyEntries(pieces: seq<string>): (r: seq<string>)
    ensures IsSubsequence(r, pieces)
    ensures forall k :: 0 <= k < |r| ==> r[k] != []
    ensures forall k :: 0 <= k < |pieces| && pieces[k] != [] ==> pieces[k] in r
    ensures pieces != [] && pieces[0] != [] ==> r != [] && r[0] == pieces[0]
    decreases |pieces|
  {
    if pieces == [] then []
    else
      var rest := RemoveEmptyEntries(pieces[1..]);
      assert forall k :: 1 <= k < |pieces| ==> pieces[k] == pieces[1..][k - 1];
      if pieces[0] == [] then rest else [pieces[0]] + rest
  }

  /** Every occurrence of a non-empty piece is kept, and no empty piece. */
  lemma {:induction false} RemoveEmptyEntriesCounts(pieces: seq<string>)
    ensures forall p :: multiset(RemoveEmptyEntries(pieces))[p] == if p == [] then 0 else multiset(pieces)[p]
    decreases |pieces|
  {
    if pieces != [] {
      RemoveEmptyEntriesCounts(pieces[1..]);
      assert pieces == [pieces[0]] + pieces[1..];
    }
  }

  /** The content root: the first non-empty piece of the base path split at `\bin\`. When
      there is none, indexing the empty array throws. */
  function ContentRootPath(basePath: string): Result<string>
  {
    var pieces := RemoveEmptyEntries(Split(basePath, BinSeparator));
    if |pieces| == 0 then Failure(IndexOutOfRange) else Success(pieces[0])
  }

  /** The content root is never empty and never contains `\bin\`. */
  lemma ContentRootIsClean(basePath: string)
    requires ContentRootPath(basePath).Success?
    ensures ContentRootPath(basePath).value != []
    ensures !Contains(ContentRootPath(basePath).value, BinSeparator)
  {
    var pieces := Split(basePath, BinSeparator);
    SplitPiecesFree(basePath, BinSeparator);
    var kept := RemoveEmptyEntries(pieces);
    SubsequenceMembers(kept, pieces);
    assert kept[0] in pieces;
  }

  /** A base path without `\bin\` is its own content root, unless it is empty. */
  lemma ContentRootWithoutBin(basePath: string)
    requires !Contains(basePath, BinSeparator)
    ensures basePath != [] ==> ContentRootPath(basePath) == Success(basePath)
    ensures basePath == [] ==> ContentRootPath(basePath) == Failure(IndexOutOfRange)
  {
    assert Split(basePath, BinSeparator) == [basePath];
    assert [basePath][1..] == [];
  }

  /** The content root is everything before the first `\bin\`, when something comes
      before it. */
  lemma ContentRootBeforeBin(basePath: string, i: nat)
    requires IndexOf(basePath, BinSeparator, 0) == Some(i) && i > 0
    ensures ContentRootPath(basePath) == Success(basePath[..i])
  {
    var pieces := Split(basePath, BinSeparator);
    assert pieces[0] == basePath[..i];
  }

  /** A leading `\bin\` is skipped. */
  lemma ContentRootSkipsLeadingBin(basePath: string)
    requires OccursAt(basePath, BinSeparator, 0)
    ensures ContentRootPath(basePath) == ContentRootPath(basePath[|BinSeparator|..])
  {
    var pieces := Split(basePath, BinSeparator);
    assert IndexOf(basePath, BinSeparator, 0) == Some(0);
    assert pieces == [[]] + Split(basePath[|BinSeparator|..], BinSeparator);
    assert pieces[1..] == Split(basePath[|BinSeparator|..], BinSeparator);
  }

  /** A build output directory: the project directory is its content root. */
  lemma ContentRootOfBuildOutput()
    ensures ContentRootPath("C:\\src\\bin\\Debug") == Success("C:\\src")
  {
    var s := "C:\\src\\bin\\Debug";
    assert OccursAt(s, BinSeparator, 6);
    forall j | 0 <= j < 6
      ensures !OccursAt(s, BinSeparator, j)
    {
      assert s[j + 1] != BinSeparator[1];
    }
    IndexOfIs(s, BinSeparator, 0, 6);
    ContentRootBeforeBin(s, 6);
    assert s[..6] == "C:\\src";
  }

  // ---------------------------------------------------------------------------------------
  // The connection string

  const ConnectionStringKey: string := "ConnectionStrings:ApplicationDbContextConnection"
  const ContentRootPlaceholder: string := "%CONTENTROOTPATH%"

  /** `GetConnectionString`. The configuration is its flattened key/value view; a missing key
      reads as null, on which `Contains` throws. Every occurrence of the placeholder is
      replaced by the content root, and a connection string without one is returned as is. */
  function GetConnectionString(contentRootPath: string, configuration: map<string, string>): (r: Result<string>)
    ensures ConnectionStringKey !in configuration ==> r == Failure(NullReference)
    ensures ConnectionStringKey in configuration ==>
              r == Success(Join(Split(configuration[ConnectionStringKey], ContentRootPlaceholder), contentRootPath))
    ensures ConnectionStringKey in configuration && !Contains(configuration[ConnectionStringKey], ContentRootPlaceholder) ==>
              r == Success(configuration[ConnectionStringKey])
  {
    if ConnectionStringKey !in configuration then Failure(NullReference)
    else
      var connectionString := configuration[ConnectionStringKey];
      if Contains(connectionString, ContentRootPlaceholder) then
        ReplaceIsSplitJoin(connectionString, ContentRootPlaceholder, contentRootPath);
        Success(Replace(connectionString, ContentRootPlaceholder, contentRootPath))
      else
        JoinSplit(connectionString, ContentRootPlaceholder);
        assert Split(connectionString, ContentRootPlaceholder) == [connectionString];
        Success(connectionString)
  }

  /** Replacing by the placeholder itself gives the connection string back. */
  lemma PlaceholderAsRoot(configuration: map<string, string>)
    requires ConnectionStringKey in configuration
    ensures GetConnectionString(ContentRootPlaceholder, configuration) == Success(configuration[ConnectionStringKey])
  {
    JoinSplit(configuration[ConnectionStringKey], ContentRootPlaceholder);
  }
}
