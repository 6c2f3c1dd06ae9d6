/** The containers nested as a title nests them: files in a RomFS or PFS0, that in an NCA section. */
module TitleTheorems {
  import opened Bytes
  import opened Order
  import opened HashBlocks
  import NcaFormat
  import NcaBuild
  import NcaRead
  import NcaTheorems
  import RomFsImage
  import RomFsRead
  import RomFsTheorems
  import Pfs0Format
  import Pfs0Read
  import Pfs0Theorems

  /** The archive as a reader gets it: accepted, with the image or archive placed in slot `i` given back. */
  lemma {:induction false} SlotGivesBack(nca: NcaBuild.PlainNca, hash: Hash, sections: seq<Option<NcaBuild.Section>>, i: nat)
    requires NcaBuild.IsArchiveOf(nca, hash, sections) && i < NcaFormat.SECTIONS && sections[i].Some?
    ensures NcaRead.TryFromBytes(NcaBuild.ToBytes(nca)) == Ok(NcaTheorems.ViewOf(nca)) && NcaRead.Accepted(NcaTheorems.ViewOf(nca))
    ensures NcaRead.Section(NcaTheorems.ViewOf(nca), i).Some?
    ensures NcaRead.Section(NcaTheorems.ViewOf(nca), i).value.data == NcaBuild.Stored(sections[i].value)
  {
    hide NcaBuild.IsArchiveOf, NcaRead.TryFromBytes, NcaRead.Accepted, NcaRead.Section, NcaBuild.ToBytes;
    NcaTheorems.BuiltIsAccepted(nca, hash, sections);
    assert NcaRead.Accepted(NcaRead.TryFromBytes(NcaBuild.ToBytes(nca)).value);
    NcaTheorems.SectionsReadBack(nca, hash, sections, i);
  }

  /** Open an archive's bytes, take the RomFS out of slot `i`, and read one file from it. */
  method ReadRomFsFile(bytes: seq<u8>, i: nat, path: Str, ghost nca: NcaBuild.PlainNca, ghost hash: Hash,
                       ghost sections: seq<Option<NcaBuild.Section>>, ghost contents: map<Str, seq<u8>>)
    returns (r: Result<seq<u8>, RomFsRead.OpenError>)
    requires NcaBuild.IsArchiveOf(nca, hash, sections) && bytes == NcaBuild.ToBytes(nca)
    requires i < NcaFormat.SECTIONS && sections[i].Some? && sections[i].value.data.RomFsImage?
    requires RomFsImage.IsImageOf(sections[i].value.data.image, contents)
    ensures r == RomFsTheorems.Answer(contents, path)
  {
    hide NcaBuild.IsArchiveOf, NcaRead.TryFromBytes, NcaRead.Accepted, NcaRead.Section, NcaBuild.ToBytes, RomFsImage.IsImageOf,
         RomFsTheorems.Answer;
    SlotGivesBack(nca, hash, sections, i);
    var archive := NcaRead.TryFromBytes(bytes);
    var section := NcaRead.Section(archive.value, i);
    r := RomFsTheorems.ReadFile(section.value.data, path, contents);
  }

  /** The same for a PFS0 section and a file name. */
  method ReadPfs0File(bytes: seq<u8>, i: nat, name: Str, ghost nca: NcaBuild.PlainNca, ghost hash: Hash,
                      ghost sections: seq<Option<NcaBuild.Section>>, ghost contents: map<Str, seq<u8>>)
    returns (r: Option<Pfs0Read.File>)
    requires NcaBuild.IsArchiveOf(nca, hash, sections) && bytes == NcaBuild.ToBytes(nca)
    requires i < NcaFormat.SECTIONS && sections[i].Some? && sections[i].value.data.PartitionArchive?
    requires Pfs0Format.IsArchiveOf(sections[i].value.data.archive, contents)
    ensures r == if name in contents then Some(Pfs0Read.File(name, contents[name])) else None
  {
    hide NcaBuild.IsArchiveOf, NcaRead.TryFromBytes, NcaRead.Accepted, NcaRead.Section, NcaBuild.ToBytes, Pfs0Format.IsArchiveOf,
         Pfs0Read.TryFromBytes, Pfs0Read.Accepted, Pfs0Read.FileByName;
    SlotGivesBack(nca, hash, sections, i);
    var archive := NcaRead.TryFromBytes(bytes);
    var section := NcaRead.Section(archive.value, i);
    ghost var view := Pfs0Theorems.FileByNameFindsWhatIsStored(section.value.data, contents, name);
    var pfs0 := Pfs0Read.TryFromBytes(section.value.data);
    r := Pfs0Read.FileByName(pfs0.value, name);
  }
}
