/** File identifiers (manifest/manifest.go): safe as a protocol key and as one directory name. */
module FileId {

  predicate Alphanumeric(c: char) {
    'A' <= c <= 'Z' || 'a' <= c <= 'z' || '0' <= c <= '9'
  }

  /** One alphanumeric character, then up to 191 of the same or '.', '_', '-'. */
  predicate ValidFileId(id: string) {
    && 1 <= |id| <= 192
    && Alphanumeric(id[0])
    && forall i :: 1 <= i < |id| ==> Alphanumeric(id[i]) || id[i] == '.' || id[i] == '_' || id[i] == '-'
  }

  /** No valid identifier leaves its directory: it is not empty, not "." or "..", and holds no separator. */
  lemma StaysInDirectory(id: string)
    requires ValidFileId(id)
    ensures id != "" && id != "." && id != ".." && '/' !in id && '\\' !in id
  {
    assert !Alphanumeric('.') && !Alphanumeric('/') && !Alphanumeric('\\');
  }

  /** The code points of letters, digits, '-', '.' and '_'. */
  predicate Allowed(c: char) {
    var n := c as int;
    48 <= n <= 57 || 65 <= n <= 90 || 97 <= n <= 122 || n == 45 || n == 46 || n == 95
  }

  /** Which identifiers there are: a letter or digit alone, and any of them followed by one more letter, digit, dash, dot
      or line, up to 192 characters. */
  lemma Identifiers(id: string, c: char)
    ensures !ValidFileId("")
    ensures ValidFileId([c]) <==> Allowed(c) && c != '.' && c != '_' && c != '-'
    ensures id != "" ==> (ValidFileId(id + [c]) <==> ValidFileId(id) && Allowed(c) && |id| < 192)
  {
    if id != "" {
      var more := id + [c];
      assert more[|id|] == c;
      forall i | 0 <= i < |id| ensures more[i] == id[i] { }
    }
  }
}
