/**
  `create_zip_file` and the download section that follows the batch: one
  unlocked file is served on its own; several are bundled into
  `unlocked_pdfs.zip` and also offered one by one. The archive is its
  ordered list of entries; the ZIP container and DEFLATE are not modelled.
*/
module Archiver {
  import opened Decryptor

  /** An `(output_filename, unlocked_bytes)` pair. */
  datatype UnlockedFile = UnlockedFile(filename: string, content: PdfBytes)

  /** One member written with `writestr(filename, pdf_bytes)`. */
  datatype ZipEntry = ZipEntry(name: string, data: PdfBytes)

  datatype Archive = Archive(entries: seq<ZipEntry>)

  const ZipName := "unlocked_pdfs.zip"

  /** What the download section offers. */
  datatype Offer =
    | NoDownload
    | Direct(file: UnlockedFile)
    | Bundled(zipName: string, archive: Archive, individual: seq<UnlockedFile>)

  /** Reading the archive back: its members in stored order, as pairs. */
  function Members(archive: Archive): (files: seq<UnlockedFile>)
    ensures |files| == |archive.entries|
    ensures forall i :: 0 <= i < |files| ==>
      files[i].filename == archive.entries[i].name && files[i].content == archive.entries[i].data
  {
    seq(|archive.entries|, i requires 0 <= i < |archive.entries| =>
      UnlockedFile(archive.entries[i].name, archive.entries[i].data))
  }

  /** The archive `create_zip_file` builds: one entry per pair, in input order. */
  function ZipOf(files: seq<UnlockedFile>): (archive: Archive)
    ensures Members(archive) == files
  {
    Archive(seq(|files|, i requires 0 <= i < |files| => ZipEntry(files[i].filename, files[i].content)))
  }

  /** `create_zip_file`: the entry loop. */
  method CreateZipFile(files: seq<UnlockedFile>) returns (archive: Archive)
    ensures |archive.entries| == |files|
    ensures forall i :: 0 <= i < |files| ==>
      archive.entries[i] == ZipEntry(files[i].filename, files[i].content)
    ensures Members(archive) == files
  {
    var written: seq<ZipEntry> := [];
    for i := 0 to |files|
      invariant |written| == i
      invariant forall j :: 0 <= j < i ==> written[j] == ZipEntry(files[j].filename, files[j].content)
    {
      written := written + [ZipEntry(files[i].filename, files[i].content)];
    }
    archive := Archive(written);
  }

  /** The download decision on the list of unlocked files. */
  function Downloads(files: seq<UnlockedFile>): (offer: Offer)
    ensures offer.NoDownload? <==> files == []
    ensures offer.Direct? <==> |files| == 1
    ensures offer.Direct? ==> offer.file == files[0]
    ensures offer.Bundled? <==> |files| > 1
    ensures offer.Bundled? ==>
      offer.zipName == ZipName && Members(offer.archive) == files && offer.individual == files
  {
    if files == [] then NoDownload
    else if |files| == 1 then Direct(files[0])
    else Bundled(ZipName, ZipOf(files), files)
  }

  /** The download section: builds the archive only when there are several files. */
  method OfferDownloads(files: seq<UnlockedFile>) returns (offer: Offer)
    ensures offer == Downloads(files)
  {
    if files == [] {
      offer := NoDownload;
    } else if |files| == 1 {
      offer := Direct(files[0]);
    } else {
      var zip := CreateZipFile(files);
      assert zip == ZipOf(files);
      offer := Bundled(ZipName, zip, files);
    }
  }
}
