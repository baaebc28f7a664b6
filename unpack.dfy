/** `unpack_menu`: the entries of the "Unpack File" popup offered for a
    packed file, as a list of (text, method, id) triples in menu order. The
    popup, the operator properties and the translation of labels are left
    to the host; so is `checkPackedFile`, which is passed in as `check` (it
    compares the packed data with the file at a given path). */
module Unpack {

  /** What `checkPackedFile` says about a path: no file there (`PF_NOFILE`),
      the same contents (`PF_EQUAL`), other contents (`PF_DIFFERS`), or any
      other answer. */
  datatype PackedCheck = NoFile | Equal | Differs | OtherCheck

  /** The `method` property of an entry (`PF_REMOVE`, `PF_USE_LOCAL`, ...). */
  datatype UnpackMethod = Remove | UseLocal | WriteLocal | UseOriginal | WriteOriginal

  datatype MenuEntry = MenuEntry(text: string, unpackMethod: UnpackMethod, id: string)

  predicate IsLocal(m: UnpackMethod) { m == UseLocal || m == WriteLocal }
  predicate IsOriginal(m: UnpackMethod) { m == UseOriginal || m == WriteOriginal }
  predicate IsWrite(m: UnpackMethod) { m == WriteLocal || m == WriteOriginal }
  predicate IsUse(m: UnpackMethod) { m == UseLocal || m == UseOriginal }

  /** `"//%s/%s"` of the folder and the file part of the absolute name. */
  function LocalName(folder: string, filePart: string): string
  {
    "//" + folder + "/" + filePart
  }

  /** The local entries are offered only when the blend file has a valid
      base path and the local name is not the absolute name itself. */
  predicate OffersLocal(relbaseValid: bool, absName: string, localName: string)
  {
    relbaseValid && absName != localName
  }

  /** How many entries a check result gives. */
  function EntryCount(result: PackedCheck): nat
  {
    match result
    case NoFile => 1
    case Equal => 1
    case Differs => 2
    case OtherCheck => 0
  }

  /** An entry's label says what its method does to `path`: "Create" and
      "Overwrite" write the packed data there, "Use" takes the file found
      there. */
  predicate Describes(e: MenuEntry, path: string)
  {
    (e.text == "Create " + path && IsWrite(e.unpackMethod)) ||
    (e.text == "Overwrite " + path && IsWrite(e.unpackMethod)) ||
    (e.text == "Use " + path + " (identical)" && IsUse(e.unpackMethod)) ||
    (e.text == "Use " + path + " (differs)" && IsUse(e.unpackMethod))
  }

  /** Whether some entry of `r` carries the label `text`. */
  predicate HasLabel(r: seq<MenuEntry>, text: string)
  {
    exists i :: 0 <= i < |r| && r[i].text == text
  }

  /** What the entries for one path say, given the check result for it:
      "Create" exactly when there is no file, "Use ... (identical)" exactly
      when the file is the same, "Use ... (differs)" and "Overwrite" exactly
      when it differs; every label names `path` and what its method does;
      and no write entry comes before a use entry. */
  predicate LabelledFor(r: seq<MenuEntry>, path: string, result: PackedCheck)
  {
    (HasLabel(r, "Create " + path) <==> result == NoFile) &&
    (HasLabel(r, "Use " + path + " (identical)") <==> result == Equal) &&
    (HasLabel(r, "Use " + path + " (differs)") <==> result == Differs) &&
    (HasLabel(r, "Overwrite " + path) <==> result == Differs) &&
    (forall i :: 0 <= i < |r| ==> Describes(r[i], path)) &&
    (forall i, j :: 0 <= i < j < |r| && IsWrite(r[i].unpackMethod) ==> IsWrite(r[j].unpackMethod))
  }

  /** The four labels for one path are pairwise different. */
  lemma LabelsDistinct(path: string)
    ensures "Create " + path != "Use " + path + " (identical)"
    ensures "Create " + path != "Use " + path + " (differs)"
    ensures "Create " + path != "Overwrite " + path
    ensures "Overwrite " + path != "Use " + path + " (identical)"
    ensures "Overwrite " + path != "Use " + path + " (differs)"
    ensures "Use " + path + " (identical)" != "Use " + path + " (differs)"
  {
    assert ("Create " + path)[0] == 'C';
    assert ("Overwrite " + path)[0] == 'O';
    assert ("Use " + path + " (identical)")[0] == 'U';
    assert ("Use " + path + " (differs)")[0] == 'U';
    assert |"Use " + path + " (identical)"| == |path| + 16;
    assert |"Use " + path + " (differs)"| == |path| + 14;
  }

  /** The entries one check result gives for `path`, using `use` and `write`
      as the methods: creating the file when there is none, using it when it
      is there, and, when it differs, the choice between using it and
      overwriting it. */
  function CheckEntries(path: string, result: PackedCheck, use: UnpackMethod, write: UnpackMethod, id: string): (r: seq<MenuEntry>)
    requires (use, write) == (UseLocal, WriteLocal) || (use, write) == (UseOriginal, WriteOriginal)
    ensures |r| == EntryCount(result)
    ensures forall i :: 0 <= i < |r| ==>
      r[i].id == id && r[i].unpackMethod in {use, write} && Describes(r[i], path)
    ensures result == Differs ==> r[0].unpackMethod == use && r[1].unpackMethod == write
  {
    match result
    case NoFile => [MenuEntry("Create " + path, write, id)]
    case Equal => [MenuEntry("Use " + path + " (identical)", use, id)]
    case Differs => [MenuEntry("Use " + path + " (differs)", use, id), MenuEntry("Overwrite " + path, write, id)]
    case OtherCheck => []
  }

  /** Each label of one check result's entries appears exactly for the
      result it belongs to, and the use entry comes before the overwrite. */
  lemma CheckEntriesLabels(path: string, result: PackedCheck, use: UnpackMethod, write: UnpackMethod, id: string)
    requires (use, write) == (UseLocal, WriteLocal) || (use, write) == (UseOriginal, WriteOriginal)
    ensures LabelledFor(CheckEntries(path, result, use, write, id), path, result)
  {
    var r := CheckEntries(path, result, use, write, id);
    LabelsDistinct(path);
    match result
    case NoFile => assert r[0].text == "Create " + path;
    case Equal => assert r[0].text == "Use " + path + " (identical)";
    case Differs => assert r[0].text == "Use " + path + " (differs)" && r[1].text == "Overwrite " + path;
    case OtherCheck =>
  }

  /** The menu: "Remove Pack" first, then the entries for the local copy in
      the `folder` next to the blend file (when offered), then those for the
      absolute path. `filePart` is the file part of `absName` as
      `BLI_split_file_part` gives it. */
  function UnpackMenu(relbaseValid: bool, idName: string, absName: string, folder: string, filePart: string,
                      check: string -> PackedCheck): (menu: seq<MenuEntry>)
    ensures var local := LocalName(folder, filePart);
      |menu| == 1 + (if OffersLocal(relbaseValid, absName, local) then EntryCount(check(local)) else 0)
              + EntryCount(check(absName))
    ensures 1 <= |menu| <= 5
    ensures menu[0] == MenuEntry("Remove Pack", Remove, idName)
    ensures forall i :: 0 <= i < |menu| ==> menu[i].id == idName
    ensures forall i :: 1 <= i < |menu| ==> IsLocal(menu[i].unpackMethod) || IsOriginal(menu[i].unpackMethod)
    ensures forall i, j :: 1 <= i < j < |menu| && IsOriginal(menu[i].unpackMethod) ==> IsOriginal(menu[j].unpackMethod)
    ensures forall i :: 1 <= i < |menu| ==>
      Describes(menu[i], if IsLocal(menu[i].unpackMethod) then LocalName(folder, filePart) else absName)
  {
    var local := LocalName(folder, filePart);
    var localEntries := if OffersLocal(relbaseValid, absName, local)
      then CheckEntries(local, check(local), UseLocal, WriteLocal, idName) else [];
    var absEntries := CheckEntries(absName, check(absName), UseOriginal, WriteOriginal, idName);
    var menu := [MenuEntry("Remove Pack", Remove, idName)] + localEntries + absEntries;
    assert forall i :: 1 <= i < 1 + |localEntries| ==> menu[i] == localEntries[i - 1];
    assert forall i :: 1 + |localEntries| <= i < |menu| ==> menu[i] == absEntries[i - 1 - |localEntries|];
    menu
  }

  /** The menu is "Remove Pack", then the block of entries for the local
      path (empty when the local copy is not offered), then the block for
      the absolute path; each block is labelled by its own check result. */
  lemma UnpackMenuLabels(relbaseValid: bool, idName: string, absName: string, folder: string, filePart: string,
                         check: string -> PackedCheck)
    ensures var menu := UnpackMenu(relbaseValid, idName, absName, folder, filePart, check);
      var local := LocalName(folder, filePart);
      var k := if OffersLocal(relbaseValid, absName, local) then EntryCount(check(local)) else 0;
      1 + k <= |menu| &&
      (forall i :: 1 <= i < 1 + k ==> IsLocal(menu[i].unpackMethod)) &&
      (forall i :: 1 + k <= i < |menu| ==> IsOriginal(menu[i].unpackMethod)) &&
      (OffersLocal(relbaseValid, absName, local) ==> LabelledFor(menu[1..1 + k], local, check(local))) &&
      LabelledFor(menu[1 + k..], absName, check(absName))
  {
    var menu := UnpackMenu(relbaseValid, idName, absName, folder, filePart, check);
    var local := LocalName(folder, filePart);
    var localEntries := if OffersLocal(relbaseValid, absName, local)
      then CheckEntries(local, check(local), UseLocal, WriteLocal, idName) else [];
    var absEntries := CheckEntries(absName, check(absName), UseOriginal, WriteOriginal, idName);
    assert menu == [MenuEntry("Remove Pack", Remove, idName)] + localEntries + absEntries;
    assert menu[1..1 + |localEntries|] == localEntries;
    assert menu[1 + |localEntries|..] == absEntries;
    CheckEntriesLabels(absName, check(absName), UseOriginal, WriteOriginal, idName);
    if OffersLocal(relbaseValid, absName, local) {
      CheckEntriesLabels(local, check(local), UseLocal, WriteLocal, idName);
    }
  }

  /** Whether some entry of `menu` has method `m`. */
  predicate Offers(menu: seq<MenuEntry>, m: UnpackMethod)
  {
    exists i :: 0 <= i < |menu| && menu[i].unpackMethod == m
  }

  /** A concatenation offers what either part offers. */
  lemma OffersConcat(a: seq<MenuEntry>, b: seq<MenuEntry>, m: UnpackMethod)
    ensures Offers(a + b, m) <==> Offers(a, m) || Offers(b, m)
  {
    if Offers(a + b, m) {
      var i :| 0 <= i < |a + b| && (a + b)[i].unpackMethod == m;
      if i >= |a| { assert b[i - |a|] == (a + b)[i]; }
    }
    if Offers(a, m) {
      var i :| 0 <= i < |a| && a[i].unpackMethod == m;
      assert (a + b)[i] == a[i];
    }
    if Offers(b, m) {
      var i :| 0 <= i < |b| && b[i].unpackMethod == m;
      assert (a + b)[|a| + i] == b[i];
    }
  }

  /** The entries of one check result offer writing exactly when there is no
      file or a different one, and using exactly when there is a file. */
  lemma CheckEntriesOffers(path: string, result: PackedCheck, use: UnpackMethod, write: UnpackMethod, id: string)
    requires (use, write) == (UseLocal, WriteLocal) || (use, write) == (UseOriginal, WriteOriginal)
    ensures var r := CheckEntries(path, result, use, write, id);
      (Offers(r, write) <==> result in {NoFile, Differs}) &&
      (Offers(r, use) <==> result in {Equal, Differs}) &&
      forall m :: m != use && m != write ==> !Offers(r, m)
  {
    var r := CheckEntries(path, result, use, write, id);
    match result
    case NoFile => assert r[0].unpackMethod == write;
    case Equal => assert r[0].unpackMethod == use;
    case Differs => assert r[0].unpackMethod == use && r[1].unpackMethod == write;
    case OtherCheck =>
  }

  /** Which ways of unpacking the menu offers, method by method: removing the
      pack always; writing the packed data to a path exactly when no file is
      there or a different one is; using the file at a path exactly when it
      is there, identical or not; and the local path only when it is offered
      at all. */
  lemma UnpackMenuOffers(relbaseValid: bool, idName: string, absName: string, folder: string, filePart: string,
                         check: string -> PackedCheck)
    ensures var menu := UnpackMenu(relbaseValid, idName, absName, folder, filePart, check);
      var local := LocalName(folder, filePart);
      var shown := OffersLocal(relbaseValid, absName, local);
      Offers(menu, Remove) &&
      (Offers(menu, WriteLocal) <==> shown && check(local) in {NoFile, Differs}) &&
      (Offers(menu, UseLocal) <==> shown && check(local) in {Equal, Differs}) &&
      (Offers(menu, WriteOriginal) <==> check(absName) in {NoFile, Differs}) &&
      (Offers(menu, UseOriginal) <==> check(absName) in {Equal, Differs})
  {
    var menu := UnpackMenu(relbaseValid, idName, absName, folder, filePart, check);
    var local := LocalName(folder, filePart);
    var localEntries := if OffersLocal(relbaseValid, absName, local)
      then CheckEntries(local, check(local), UseLocal, WriteLocal, idName) else [];
    var absEntries := CheckEntries(absName, check(absName), UseOriginal, WriteOriginal, idName);
    var remove := [MenuEntry("Remove Pack", Remove, idName)];
    assert menu == remove + localEntries + absEntries;
    assert Offers(remove, Remove);
    assert forall m :: m != Remove ==> !Offers(remove, m);
    CheckEntriesOffers(absName, check(absName), UseOriginal, WriteOriginal, idName);
    if OffersLocal(relbaseValid, absName, local) {
      CheckEntriesOffers(local, check(local), UseLocal, WriteLocal, idName);
    }
    forall m ensures Offers(menu, m) <==> Offers(remove, m) || Offers(localEntries, m) || Offers(absEntries, m) {
      OffersConcat(remove, localEntries, m);
      OffersConcat(remove + localEntries, absEntries, m);
    }
  }

  /** Two entries play the same part, one for the local path and one for
      the absolute path: both write or both use. */
  predicate SameRole(localEntry: MenuEntry, originalEntry: MenuEntry)
  {
    IsLocal(localEntry.unpackMethod) && IsOriginal(originalEntry.unpackMethod) &&
    IsWrite(localEntry.unpackMethod) == IsWrite(originalEntry.unpackMethod)
  }

  /** The local entries and the ones for the absolute path follow one
      decision rule: when the local copy is offered and both paths get the
      same answer, the local block and the absolute block match entry for
      entry, the local one first. */
  lemma UnpackMenuLocalMirrorsOriginal(relbaseValid: bool, idName: string, absName: string, folder: string,
                                       filePart: string, check: string -> PackedCheck)
    requires OffersLocal(relbaseValid, absName, LocalName(folder, filePart))
    requires check(LocalName(folder, filePart)) == check(absName)
    ensures var menu := UnpackMenu(relbaseValid, idName, absName, folder, filePart, check);
      var c := EntryCount(check(absName));
      |menu| == 1 + 2 * c &&
      var localBlock := menu[1..1 + c];
      var originalBlock := menu[1 + c..];
      forall i :: 0 <= i < c ==> SameRole(localBlock[i], originalBlock[i])
  {
    var menu := UnpackMenu(relbaseValid, idName, absName, folder, filePart, check);
    var local := LocalName(folder, filePart);
    var localEntries := CheckEntries(local, check(local), UseLocal, WriteLocal, idName);
    var absEntries := CheckEntries(absName, check(absName), UseOriginal, WriteOriginal, idName);
    assert menu == [MenuEntry("Remove Pack", Remove, idName)] + localEntries + absEntries;
    var c := EntryCount(check(absName));
    assert menu[1..1 + c] == localEntries;
    assert menu[1 + c..] == absEntries;
  }
}
