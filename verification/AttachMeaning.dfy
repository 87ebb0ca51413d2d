/**
  Which ATTACH entries are inline files, which id an entry refers to, where a stored file is linked,
  and which component has the entries, told by the texts themselves.
 */
module AttachMeaning {
  import opened Strings
  import opened Attach
  import opened Wrappers

  /** An address: it has "://" somewhere, or starts with a slash or, in any case of letters, with "cid:". */
  ghost predicate IsAddress(v: string) {
    || (exists i :: 0 <= i < |v| - 2 && v[i] == ':' && v[i + 1] == '/' == v[i + 2])
    || (|v| > 0 && v[0] == '/')
    || (|v| >= 4 && ToLower(v[..4]) == "cid:")
  }

  lemma LinkIsAddress(v: string)
    ensures IsLink(v) <==> v == "" || IsAddress(v)
  {
    if |v| >= 4 {
      assert ToLower(v)[..4] == ToLower(v[..4]);
    }
    if i :| 0 <= i < |v| - 2 && v[i] == ':' && v[i + 1] == '/' == v[i + 2] {
      assert v[i..i + 3] == "://";
      assert IsAt(v, "://", i);
    }
    if i :| 0 <= i <= |v| && IsAt(v, "://", i) {
      assert v[i] == "://"[0] && v[i + 1] == "://"[1] && v[i + 2] == "://"[2];
    }
  }

  /** Marked as binary or base64, in any case of letters. */
  ghost predicate IsMarked(p: Prop) {
    ToUpper(p.valueType) == "BINARY" || ToUpper(p.encoding) == "BASE64"
  }

  /** An entry is an inline file exactly if it decodes, and is marked as one or is neither blank nor an address. */
  lemma InlineIff(codec: Codec, p: Prop)
    ensures InlineOf(codec, p).Some? <==>
              codec.decode(p).Some? && (IsMarked(p) || (Trim(p.value) != "" && !IsAddress(Trim(p.value))))
    ensures InlineOf(codec, p).Some? ==>
              var file := InlineOf(codec, p).value;
              && Some(file.data) == codec.decode(p)
              && file.filename == (if p.filename == "" && p.name == "" then "attachment"
                                   else if p.filename == "" then p.name else p.filename)
              && file.contentType == (if p.fmttype == "" then p.fmtype else p.fmttype)
  {
    LinkIsAddress(Trim(p.value));
    hide IsLink, IsAddress, Trim;
  }

  /** Eight to sixty-four letters, digits and hyphens. */
  ghost predicate MayBeId(s: string) {
    8 <= |s| && |s| < 65 && forall i | 0 <= i < |s| :: IsLetter(s[i]) || IsDigit(s[i]) || s[i] == '-'
  }

  ghost predicate IsLetter(c: char) {
    ('A' <= c && c < '[') || ('a' <= c && c < '{')
  }

  /** A MANAGED-ID that may be an id is taken, else the one in the address. */
  lemma IdIsTaken(codec: Codec, p: Prop, calendar: int)
    ensures ManagedId(codec, p, calendar) == if MayBeId(Trim(p.managedId)) then Trim(p.managedId) else codec.idFromUri(p.value, calendar)
  {
    var s := Trim(p.managedId);
    hide Trim;
    forall i | 0 <= i < |s| ensures IsIdChar(s[i]) <==> IsLetter(s[i]) || IsDigit(s[i]) || s[i] == '-' {
    }
  }

  ghost predicate IsHex(c: char) {
    IsDigit(c) || c in {'a', 'b', 'c', 'd', 'e', 'f', 'A', 'B', 'C', 'D', 'E', 'F'}
  }

  /** The server's own ids: hexadecimal digits in groups of 8, 4, 4, 4 and 12, with hyphens between them. */
  lemma PublicIdIs(s: string)
    ensures IsPublicId(s) <==>
              && |s| == 36 && s[8] == s[13] == s[18] == s[23] == '-'
              && (forall i | 0 <= i < 36 && i != 8 && i != 13 && i != 18 && i != 23 :: IsHex(s[i]))
  {
    forall i | 0 <= i < |s| ensures IsHex(s[i]) <==> '0' <= s[i] <= '9' || 'a' <= s[i] <= 'f' || 'A' <= s[i] <= 'F' {
      HexIs(s[i]);
    }
    hide IsHex;
  }

  lemma HexIs(c: char)
    ensures IsHex(c) <==> '0' <= c <= '9' || 'a' <= c <= 'f' || 'A' <= c <= 'F'
  {
  }

  /** A stored file is linked under the public URL, whatever slashes that ends with. */
  lemma {:induction false} LinkedUnder(base: string, slashes: string, a: Managed)
    requires base == "" || base[|base| - 1] != '/'
    requires forall i | 0 <= i < |slashes| :: slashes[i] == '/'
    ensures Written(base + slashes, a).value == base + "/dav/attachments/" + a.publicId
    ensures Written(base + slashes, a).managedId == a.publicId && Written(base + slashes, a).filename == a.filename
    ensures Written(base + slashes, a).fmttype == a.contentType && Written(base + slashes, a).size == Decimal(a.size)
  {
    SlashesGo(base, slashes);
    SlashesGo(base, "");
    assert base + "" == base;
  }

  lemma {:induction false} SlashesGo(base: string, slashes: string)
    requires base == "" || base[|base| - 1] != '/'
    requires forall i | 0 <= i < |slashes| :: slashes[i] == '/'
    ensures TrimSlashes(base + slashes) == base
  {
    if slashes == "" {
      assert base + slashes == base;
    } else {
      var k := |slashes| - 1;
      SlashesGo(base, slashes[..k]);
      assert (base + slashes)[..|base + slashes| - 1] == base + slashes[..k];
      assert (base + slashes)[|base + slashes| - 1] == slashes[k];
    }
  }

  /** The entries are those of the first component that has any, or of the first at all, time zones aside. */
  lemma HostIs(ics: Ics)
    ensures match Host(ics)
            case None => forall k | 0 <= k < |ics| :: ics[k].name == "VTIMEZONE"
            case Some(h) =>
              && ics[h].name != "VTIMEZONE"
              && (forall k | 0 <= k < h :: ics[k].name == "VTIMEZONE" || ics[k].attach == [])
              && (ics[h].attach == [] ==>
                    (forall k | 0 <= k < |ics| :: ics[k].name == "VTIMEZONE" || ics[k].attach == [])
                    && forall k | 0 <= k < h :: ics[k].name == "VTIMEZONE")
  {
    FirstWithIs(ics, 0);
    FirstEventIs(ics, 0);
  }
}
