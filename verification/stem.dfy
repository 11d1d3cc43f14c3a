/** The identifier of an uploaded document: its file name up to the first '.'. */
module DocumentId {

  /** `name.split('.')[0]`: the longest prefix of `name` that holds no '.'. */
  function FileStem(name: string): (stem: string)
    ensures stem <= name
    ensures '.' !in stem
    ensures |stem| < |name| ==> name[|stem|] == '.'
    ensures '.' !in name ==> stem == name
  {
    if name == [] || name[0] == '.' then [] else [name[0]] + FileStem(name[1..])
  }

  /** The three properties of FileStem's contract determine the stem. */
  lemma FileStemUnique(name: string, p: string)
    requires p <= name && '.' !in p
    requires |p| < |name| ==> name[|p|] == '.'
    ensures p == FileStem(name)
  {
  }

  /** Uploading `stem.ext` files the text under `stem`, whatever the extension holds. */
  lemma {:induction false} FileStemOfName(stem: string, ext: string)
    requires '.' !in stem
    ensures FileStem(stem + ['.'] + ext) == stem
  {
    if stem != [] {
      assert stem[0] in stem;
      assert (stem + ['.'] + ext)[1..] == stem[1..] + ['.'] + ext;
      FileStemOfName(stem[1..], ext);
    }
  }
}
