/** splitFileAndKey from utils.go: a file reference `path//key` split at its
    last "//". */
module Utils {
  import opened Strings

  /** The file part and the key part; without any "//" the key part is empty. */
  function SplitFileAndKey(value: string): (r: (string, string))
    ensures HasPair(value, '/', '/') ==> r.0 + "//" + r.1 == value
    ensures HasPair(value, '/', '/') ==> !HasPair(r.1, '/', '/') && (|r.1| == 0 || r.1[0] != '/')
    ensures !HasPair(value, '/', '/') ==> r == (value, "")
  {
    match LastIndexOfPair(value, '/', '/')
    case None => (value, "")
    case Some(i) =>
      assert value == value[..i] + "//" + value[i + 2..];
      HasPairInfix(value[i + 1..], 1, '/', '/');
      assert value[i + 1..][1..] == value[i + 2..];
      (value[..i], value[i + 2..])
  }

  /** Splitting undoes joining with "//" whenever the key holds no "//" and
      does not start with '/'; the file part may hold "//" itself. */
  lemma {:induction false} SplitJoin(file: string, key: string)
    requires !HasPair(key, '/', '/') && (|key| == 0 || key[0] != '/')
    ensures SplitFileAndKey(file + "//" + key) == (file, key)
  {
    var value := file + "//" + key;
    assert value[|file|] == '/' && value[|file| + 1] == '/';
    var r := SplitFileAndKey(value);
    var i := LastIndexOfPair(value, '/', '/').value;
    assert value[i + 2..] == r.1 && value[..i] == r.0;
    assert value[..|file|] == file && value[|file| + 2..] == key;
  }

  /** A trailing "//" names the whole file with an empty key, and a leading
      "//" an empty file path. */
  lemma SplitEdges(path: string, key: string)
    requires !HasPair(key, '/', '/') && (|key| == 0 || key[0] != '/')
    ensures SplitFileAndKey(path + "//") == (path, "")
    ensures SplitFileAndKey("//" + key) == ("", key)
  {
    SplitJoin(path, "");
    assert path + "//" + "" == path + "//";
    SplitJoin("", key);
    assert "" + "//" + key == "//" + key;
  }

  /** Without "//" the whole value is the file path. */
  lemma SplitNoDelimiter(value: string)
    requires !HasPair(value, '/', '/')
    ensures SplitFileAndKey(value) == (value, "")
  {
  }
}
