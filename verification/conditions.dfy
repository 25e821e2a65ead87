/**
 * When exactly the operations on the backup directory work, in terms of the pieces and lengths of
 * paths and of what is in the files.
 */
module Conditions {
  import opened Bytes
  import opened Paths
  import opened FileTree
  import opened Store
  import opened Server
  import Fnv
  import Local

  // ---- Strings ---------------------------------------------------------------------------------------------

  /** The names of an area, each with a slash behind it. */
  function Joined(area: Path): text { if area == [] then [] else area[0] + [SLASH] + Joined(area[1..]) }

  lemma LastIsNoSlash(name: text)
    requires EntryName(name)
    ensures name != [] && name[0] != SLASH && name[|name| - 1] != SLASH
  {
    assert name[0] in name && name[|name| - 1] in name;
  }

  /** The string built for a path in an area, and when there is one. */
  lemma {:induction false} LocatedIs(root: text, spot: Spot)
    requires Accepted(spot.rel) && forall n :: n in spot.area ==> EntryName(n)
    ensures Located(root, spot) ==
      if |root| + |Glue(root)| + |Joined(spot.area)| + |spot.rel| < 512
      then Some(root + Glue(root) + Joined(spot.area) + spot.rel) else None
    decreases |spot.area|
  {
    AcceptedIsPlain(spot.rel);
    hide JoinPath, Glue, EntryName;
    if spot.area == [] {
      JoinPlain(root, spot.rel);
      assert root + Glue(root) + [] == root + Glue(root);
    } else {
      var name, rest := spot.area[0], Spot(spot.area[1..], spot.rel);
      LastIsNoSlash(name);
      JoinPlain(root, name);
      hide Accepted;
      var base := root + Glue(root) + name;
      GlueOf(root + Glue(root), name);
      LocatedIs(base, rest);
      assert base + [SLASH] + Joined(rest.area) + spot.rel == root + Glue(root) + Joined(spot.area) + spot.rel;
    }
  }

  lemma AreaNames(stamp: text)
    ensures Joined([CURRENT]) == Ascii("current/")
    ensures Joined([VERSIONS, stamp]) == Ascii(".versions/") + stamp + [SLASH]
    ensures Joined([TRASH, stamp]) == Ascii(".trash/") + stamp + [SLASH]
    ensures EntryName(CURRENT) && EntryName(VERSIONS) && EntryName(TRASH)
  {
    assert [CURRENT][1..] == [] && [VERSIONS, stamp][1..] == [stamp] && [TRASH, stamp][1..] == [stamp];
    assert [stamp][1..] == [];
    AreasSpelled();
  }

  lemma AreasSpelled()
    ensures Ascii("current/") == CURRENT + [SLASH] && Ascii(".versions/") == VERSIONS + [SLASH]
    ensures Ascii(".trash/") == TRASH + [SLASH]
  {
  }

  // ---- Directories and staging files -------------------------------------------------------------------------

  /** No file is at the place or above it. */
  ghost predicate NoFileOn(fs: Files, p: Path) { forall k :: 0 <= k <= |p| ==> !IsFile(fs, p[..k]) }

  /**
   * A file can be put in the place by way of its staging file: no file is where directories are
   * needed, no directory where the two files go, and the path ends in a name.
   */
  ghost predicate Free(fs: Files, at: Spot) {
    NoFileOn(fs, at.Parent()) && !IsDir(fs, at.Temp()) && !IsDir(fs, at.Target()) && at.Target() != at.Parent()
  }

  lemma NoFileOnIff(fs: Files, p: Path)
    requires Tree(fs)
    ensures NoFileOn(fs, p) <==> Makeable(fs, p) && IsDir(WithDirs(fs, p), p)
  {
    hide WithDirs;
    WithDirsAt(fs, p, p);
    assert p[..|p|] == p;
  }

  lemma StagingIff(fs: Files, at: Spot, truncate: bool)
    requires Tree(fs) && Accepted(at.rel)
    ensures Makeable(fs, at.Parent()) && Succeeds(Create(at.Temp(), truncate), WithDirs(fs, at.Parent())) <==>
      NoFileOn(fs, at.Parent()) && !IsDir(fs, at.Temp())
  {
    hide Accepted, WithDirs, Tree, Spot.Target, Spot.Temp, Spot.Parent, Makeable, NoFileOn, Basename;
    SpotParts(at);
    NoFileOnIff(fs, at.Parent());
    var up, temp := at.Parent(), at.Temp();
    assert temp[..|temp| - 1] == up && !(temp <= up);
    WithDirsAt(fs, up, temp);
    if Makeable(fs, up) {
      MadeIsTree(fs, up);
      InTree(WithDirs(fs, up), temp);
    }
  }

  lemma InTree(fs: Files, p: Path)
    requires Tree(fs)
    ensures p in fs && p != [] ==> ParentIsDir(fs, p)
  {
  }

  lemma TargetIff(fs: Files, at: Spot)
    requires Accepted(at.rel) && NoFileOn(fs, at.Parent()) && Tree(fs)
    ensures !IsDir(WithDirs(fs, at.Parent()), at.Target()) <==> !IsDir(fs, at.Target()) && at.Target() != at.Parent()
    ensures at.Target() != at.Parent() ==> Get(WithDirs(fs, at.Parent()), at.Target()) == Get(fs, at.Target())
  {
    hide Accepted, WithDirs, Tree, Spot.Target, Spot.Temp, Spot.Parent, Makeable, Basename, NoFileOn;
    SpotParts(at);
    NoFileOnIff(fs, at.Parent());
    WithDirsAt(fs, at.Parent(), at.Target());
  }

  lemma PlaceableIff(fs: Files, to: Spot, len: nat)
    requires Tree(fs) && Accepted(to.rel)
    ensures Placeable(fs, to, len) <==> len + 8 < 512 && Free(fs, to)
  {
    hide Accepted, WithDirs, Tree, Spot.Target, Spot.Temp, Spot.Parent, Makeable, NoFileOn, Succeeds;
    StagingIff(fs, to, true);
    if NoFileOn(fs, to.Parent()) {
      TargetIff(fs, to);
    }
  }

  // ---- The operations ----------------------------------------------------------------------------------------

  /** How long the string for a path in an area is. */
  function Length(root: text, area: text, rel: text): nat { |root| + |Glue(root)| + |area| + |rel| }

  function VersionArea(stamp: text): text { Ascii(".versions/") + stamp + Ascii("/") }

  function TrashArea(stamp: text): text { Ascii(".trash/") + stamp + Ascii("/") }

  lemma Lengths(root: text, rel: text, stamp: text)
    requires Accepted(rel) && EntryName(stamp)
    ensures Located(root, Current(rel)).Some? <==> Length(root, Ascii("current/"), rel) < 512
    ensures Located(root, Version(stamp, rel)).Some? <==> Length(root, VersionArea(stamp), rel) < 512
    ensures Located(root, Version(stamp, rel)).Some? ==>
      |Located(root, Version(stamp, rel)).value| == Length(root, VersionArea(stamp), rel)
    ensures Located(root, Trash(stamp, rel)).Some? <==> Length(root, TrashArea(stamp), rel) < 512
  {
    AreaNames(stamp);
    SlashSpelled();
    hide Accepted, EntryName, Located, Ascii, Joined, Glue;
    LocatedIs(root, Current(rel));
    LocatedIs(root, Version(stamp, rel));
    LocatedIs(root, Trash(stamp, rel));
  }

  lemma SlashSpelled()
    ensures Ascii("/") == [SLASH]
  {
  }

  /**
   * The backup of what is at a path works exactly if the path is proper and short enough and, if
   * something is there, the version's string is short enough too and nothing is in the version's way.
   */
  lemma BackupWorksIff(fs: Files, root: text, rel: text, stamp: text)
    requires Tree(fs) && EntryName(stamp)
    ensures BackupWorks(fs, root, rel, stamp) <==>
      && Proper(Components(rel)) && Length(root, Ascii("current/"), rel) < 512
      && (IsDir(fs, Current(rel).Target()) ==>
        Length(root, VersionArea(stamp), rel) < 512 &&
        forall k :: 0 <= k < |Version(stamp, rel).Target()| ==> !IsFile(fs, Version(stamp, rel).Target()[..k]))
      && (IsFile(fs, Current(rel).Target()) ==>
        Length(root, VersionArea(stamp), rel) + 8 < 512 && Free(fs, Version(stamp, rel)))
  {
    AcceptedIff(rel);
    hide Accepted, EntryName, Located, Ascii, Free, CopyWorks, Placeable, Proper, Components, Spot.Target, Spot.Temp;
    hide Spot.Parent, VersionArea, Length, Tree;
    if Accepted(rel) {
      Lengths(root, rel, stamp);
      var src, to := Current(rel).Target(), Version(stamp, rel);
      if IsFile(fs, src) && Located(root, to).Some? {
        SizeFits(fs, src);
        PlaceableCopies(fs, fs[src].content, to, |Located(root, to).value|);
        PlaceableIff(fs, to, |Located(root, to).value|);
      }
    }
  }

  /**
   * A node can be moved to a place whose last component is a name exactly if it is there, no file is
   * where directories are needed, the place is not inside the node, and what is in the place is a
   * file if the node is one, and an empty directory if it is a directory.
   */
  lemma MoveIff(fs: Files, src: Path, to: Spot)
    requires Tree(fs) && Accepted(to.rel) && to.Target() != to.Parent()
    ensures var dst := to.Target();
      Makeable(fs, to.Parent()) && Succeeds(Rename(src, dst), WithDirs(fs, to.Parent())) <==>
      && src in fs && NoFileOn(fs, to.Parent())
      && (src == dst || (!(src <= dst) &&
        (dst in fs ==> if IsFile(fs, src) then IsFile(fs, dst) else IsDir(fs, dst) && NothingIn(fs, dst))))
  {
    hide Accepted, WithDirs, Tree, Spot.Target, Spot.Temp, Spot.Parent, Makeable, Basename, NoFileOn, EmptyBelow;
    hide NothingIn;
    SpotParts(to);
    var up, dst := to.Parent(), to.Target();
    var made := WithDirs(fs, up);
    NoFileOnIff(fs, up);
    WithDirsAt(fs, up, src);
    WithDirsAt(fs, up, dst);
    assert dst[..|dst| - 1] == up && !(dst <= up);
    EmptyAgain(fs, up, dst);
  }

  /** There is no entry in the directory. */
  ghost predicate NothingIn(fs: Files, p: Path) { forall x :: x in fs && p <= x ==> x == p }

  lemma EmptyAgain(fs: Files, up: Path, dst: Path)
    requires !(dst <= up)
    ensures EmptyBelow(WithDirs(fs, up), dst) <==> NothingIn(fs, dst)
  {
    hide WithDirs;
    forall x | dst < x
      ensures x in WithDirs(fs, up) <==> x in fs
    {
      WithDirsAt(fs, up, x);
    }
  }

  /**
   * Trashing works exactly if the path is proper and short enough and, if something is there, the
   * string in the trash is short enough too and the move works.
   */
  lemma TrashWorksIff(fs: Files, root: text, rel: text, stamp: text)
    requires Tree(fs) && EntryName(stamp) && Trash(stamp, rel).Target() != Trash(stamp, rel).Parent()
    ensures var src, to := Current(rel).Target(), Trash(stamp, rel);
      TrashWorks(fs, root, rel, stamp) <==>
      && Proper(Components(rel)) && Length(root, Ascii("current/"), rel) < 512
      && (src in fs ==>
        && Length(root, TrashArea(stamp), rel) < 512 && NoFileOn(fs, to.Parent())
        && (to.Target() in fs ==>
          if IsFile(fs, src) then IsFile(fs, to.Target()) else IsDir(fs, to.Target()) && NothingIn(fs, to.Target())))
  {
    AcceptedIff(rel);
    hide Accepted, EntryName, Located, Ascii, Proper, Components, Spot.Target, Spot.Parent, TrashArea, Length, Tree;
    hide NoFileOn, Makeable, Succeeds, EmptyBelow, NothingIn, WithDirs;
    if Accepted(rel) {
      Lengths(root, rel, stamp);
      AreasApart(rel, stamp);
      MoveIff(fs, Current(rel).Target(), Trash(stamp, rel));
    }
  }

  lemma AreasApart(rel: text, stamp: text)
    ensures !(Current(rel).Target() <= Trash(stamp, rel).Target())
  {
    assert CURRENT != TRASH;
    assert Current(rel).Target()[0] == CURRENT && Trash(stamp, rel).Target()[0] == TRASH;
  }

  /** A rename works exactly if both paths are proper and short enough and the move works. */
  lemma RenameWorksIff(fs: Files, root: text, oldRel: text, rel: text)
    requires Tree(fs) && Current(rel).Target() != Current(rel).Parent()
    ensures var src, dst := Current(oldRel).Target(), Current(rel).Target();
      RenameWorks(fs, root, oldRel, rel) <==>
      && Proper(Components(oldRel)) && Length(root, Ascii("current/"), oldRel) < 512
      && Proper(Components(rel)) && Length(root, Ascii("current/"), rel) < 512
      && src in fs && NoFileOn(fs, Current(rel).Parent())
      && (src == dst || (!(src <= dst) &&
        (dst in fs ==> if IsFile(fs, src) then IsFile(fs, dst) else IsDir(fs, dst) && NothingIn(fs, dst))))
  {
    AcceptedIff(rel);
    CurrentPathIs(root, oldRel);
    CurrentPathIs(root, rel);
    hide Accepted, Ascii, Proper, Components, Spot.Target, Spot.Parent, Tree, CurrentPath, Glue;
    hide NoFileOn, Makeable, Succeeds, EmptyBelow, NothingIn, WithDirs;
    if Proper(Components(rel)) {
      MoveIff(fs, Current(oldRel).Target(), Current(rel));
    }
  }

  // ---- Uploads -----------------------------------------------------------------------------------------------

  /** The hash that is asked of the whole, if any, is the hash of the content: the end's, or else the announced one. */
  ghost predicate PassesCheck(total: u64, u: Upload, content: text) {
    u.end.Some? &&
    (u.end.value.totalHash != 0 ==> Fnv.Hash(content) == u.end.value.totalHash) &&
    (u.end.value.totalHash == 0 && total != 0 ==> Fnv.Hash(content) == total)
  }

  /**
   * A small upload works exactly if nothing is in the way of the file, and nothing in the way of the
   * version if there is a file to save, and the blocks pass the check.
   */
  lemma UploadWorksIff(fs: Files, root: text, rel: text, stamp: text, u: Upload, total: u64)
    requires Tree(fs) && EntryName(stamp)
    ensures UploadWorks(fs, root, rel, stamp, u, total) <==>
      && Proper(Components(rel)) && Length(root, Ascii("current/"), rel) < 512
      && Free(fs, Current(rel)) && PassesCheck(total, u, Assemble([], u.blocks))
      && (IsFile(fs, Current(rel).Target()) ==>
        Length(root, VersionArea(stamp), rel) + 8 < 512 && Free(fs, Version(stamp, rel)))
  {
    AcceptedIff(rel);
    var at := Current(rel);
    var made := WithDirs(fs, at.Parent());
    hide Accepted, EntryName, Ascii, Proper, Components, Spot.Target, Spot.Temp, Spot.Parent, VersionArea, Length;
    hide BackupWorks, WithDirs, Makeable, Succeeds, Tree, NoFileOn, Fnv.Hash, Assemble;
    if Accepted(rel) {
      StagingIff(fs, at, true);
      if NoFileOn(fs, at.Parent()) {
        NoFileOnIff(fs, at.Parent());
        TargetIff(fs, at);
        MadeIsTree(fs, at.Parent());
        BackupWorksIff(made, root, rel, stamp);
        VersionStaysFree(fs, rel, stamp);
      }
    } else {
      NeverBackedUp(made, root, rel, stamp);
    }
  }

  lemma NeverBackedUp(fs: Files, root: text, rel: text, stamp: text)
    ensures !Accepted(rel) ==> !BackupWorks(fs, root, rel, stamp)
  {
  }

  /** Making directories under current/ leaves what is in the way of a version alone. */
  lemma VersionStaysFree(fs: Files, rel: text, stamp: text)
    ensures Free(WithDirs(fs, Current(rel).Parent()), Version(stamp, rel)) <==> Free(fs, Version(stamp, rel))
  {
    var v, up := Version(stamp, rel), Current(rel).Parent();
    VersionPlaces(stamp, rel);
    hide WithDirs, Spot.Target, Spot.Temp, Spot.Parent;
    NotOnWay(fs, rel, v.Target());
    NotOnWay(fs, rel, v.Temp());
    forall k | 0 <= k <= |v.Parent()|
      ensures Get(WithDirs(fs, up), v.Parent()[..k]) == Get(fs, v.Parent()[..k])
    {
      NotOnWay(fs, rel, v.Parent()[..k]);
    }
  }

  lemma NotOnWay(fs: Files, rel: text, x: Path)
    requires x == [] || x[0] == VERSIONS
    ensures Get(WithDirs(fs, Current(rel).Parent()), x) == Get(fs, x)
  {
    assert CURRENT != VERSIONS && Current(rel).Parent()[0] == CURRENT;
    hide WithDirs, Spot.Parent;
    WithDirsAt(fs, Current(rel).Parent(), x);
  }

  /** A large upload works exactly if nothing is in the way of the file and the whole passes the check. */
  lemma StreamWorksIff(fs: Files, rel: text, u: Upload, total: u64)
    requires Tree(fs) && Accepted(rel)
    ensures StreamWorks(fs, rel, u, total) <==>
      Free(fs, Current(rel)) && PassesCheck(total, u, Assemble(Content(fs, Current(rel).Temp()), u.blocks))
  {
    hide Accepted, Spot.Target, Spot.Temp, Spot.Parent, WithDirs, Makeable, Succeeds, Tree, NoFileOn, Fnv.Hash;
    hide Assemble;
    StagingIff(fs, Current(rel), false);
    if NoFileOn(fs, Current(rel).Parent()) {
      TargetIff(fs, Current(rel));
    }
  }

  /** Copying a file in local mode works exactly under the same conditions, and if the staging name is short enough. */
  lemma FileSyncsIff(fs: Files, root: text, rel: text, stamp: text)
    requires Tree(fs) && EntryName(stamp)
    ensures Local.FileSyncs(fs, root, rel, stamp) <==>
      && Proper(Components(rel)) && Length(root, Ascii("current/"), rel) + 8 < 512 && Free(fs, Current(rel))
      && (IsFile(fs, Current(rel).Target()) ==>
        Length(root, VersionArea(stamp), rel) + 8 < 512 && Free(fs, Version(stamp, rel)))
  {
    AcceptedIff(rel);
    CurrentPathIs(root, rel);
    hide Accepted, EntryName, Ascii, Proper, Components, VersionArea, BackupWorks, Tree, Glue, CurrentPath, Placeable;
    hide Spot.Target, Spot.Temp, Spot.Parent, NoFileOn;
    BackupWorksIff(fs, root, rel, stamp);
    if Accepted(rel) && CurrentPath(root, rel).Some? {
      PlaceableIff(fs, Current(rel), |CurrentPath(root, rel).value|);
    }
  }
}
