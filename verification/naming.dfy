/** Output naming: the suffixes that flag a damaged or wrongly sized file
    and identify a dictionary. Only the name is modelled; the directory it
    is written to is not. */
module Naming {
  import opened Bytes
  import opened Results
  import opened Catalogue

  const DamagedTag: ByteString := Ascii("-DAMAGED")
  const BadSizeTag: ByteString := Ascii("-BADSIZE")
  const DictExt: ByteString := Ascii(".dict")

  /** What an output name says about its file. */
  datatype Marks = Marks(damaged: bool, badSize: bool, dict: bool)

  /** The suffix that spells out a set of marks; at most one of the two tags. */
  function Suffix(m: Marks): ByteString {
    (if m.damaged then DamagedTag else if m.badSize then BadSizeTag else [])
    + (if m.dict then DictExt else [])
  }

  /** Reads the marks back from a suffix, if it is one `Suffix` can produce. */
  function ReadSuffix(s: ByteString): Option<Marks> {
    var tagged := |s| >= |DamagedTag| && (s[..|DamagedTag|] == DamagedTag || s[..|DamagedTag|] == BadSizeTag);
    var rest := if tagged then s[|DamagedTag|..] else s;
    var m := Marks(tagged && s[..|DamagedTag|] == DamagedTag, tagged && s[..|DamagedTag|] == BadSizeTag, rest == DictExt);
    if rest == DictExt || rest == [] then Some(m) else None
  }

  /** The suffix can be read back: names carry their marks unambiguously. */
  lemma ReadSuffixInvertsSuffix(m: Marks)
    requires !(m.damaged && m.badSize)
    ensures ReadSuffix(Suffix(m)) == Some(m)
  {
    assert DamagedTag[1] != BadSizeTag[1];
    assert DictExt != [];
    var s := Suffix(m);
    if m.damaged || m.badSize {
      assert s[..|DamagedTag|] == (if m.damaged then DamagedTag else BadSizeTag);
      assert s[|DamagedTag|..] == (if m.dict then DictExt else []);
    } else {
      assert |s| < |DamagedTag|;
    }
  }

  /** Only suffixes `Suffix` produces are read back, so a name's suffix is
      determined by the marks read from it. */
  lemma ReadSuffixOnlySuffixes(s: ByteString)
    requires ReadSuffix(s).Some?
    ensures !(ReadSuffix(s).value.damaged && ReadSuffix(s).value.badSize)
    ensures s == Suffix(ReadSuffix(s).value)
  {
    assert DamagedTag[1] != BadSizeTag[1];
    var n := |DamagedTag|;
    if |s| >= n && (s[..n] == DamagedTag || s[..n] == BadSizeTag) {
      assert s == s[..n] + s[n..];
    }
  }

  /** The output name of a finished entry: its name, then `-DAMAGED` if any
      of its tracks failed, otherwise `-BADSIZE` if its length differs from
      the declared size, then `.dict` for type 0 whatever came before. */
  function OutputName(e: Entry): (r: ByteString)
    ensures |e.name| <= |r| && r[..|e.name|] == e.name
    ensures ReadSuffix(r[|e.name|..]) == Some(Marks(e.damaged, !e.damaged && e.size != |e.data|, e.kind == 0))
  {
    var m := Marks(e.damaged, !e.damaged && e.size != |e.data|, e.kind == 0);
    ReadSuffixInvertsSuffix(m);
    var tag := if e.damaged then DamagedTag else if e.size != |e.data| then BadSizeTag else [];
    var ext := if e.kind == 0 then DictExt else [];
    var r := e.name + tag + ext;
    assert Suffix(m) == tag + ext;
    AppendAssoc(e.name, tag, ext);
    SplitAppend(e.name, tag + ext);
    r
  }

  /** An output name is the entry name followed by the suffix of its marks. */
  lemma OutputNameSpelled(e: Entry)
    ensures OutputName(e) == e.name + Suffix(Marks(e.damaged, !e.damaged && e.size != |e.data|, e.kind == 0))
  {
    var tag := if e.damaged then DamagedTag else if e.size != |e.data| then BadSizeTag else [];
    var ext := if e.kind == 0 then DictExt else [];
    assert Suffix(Marks(e.damaged, !e.damaged && e.size != |e.data|, e.kind == 0)) == tag + ext;
    AppendAssoc(e.name, tag, ext);
  }
}
