/**
 blobmsg (blobmsg.c): blob attributes that carry a name.  The payload of a
 named attribute starts with a `struct blobmsg_hdr` — a 16-bit name length
 and the name with its NUL — padded to 4 bytes, followed by the value.

 blobmsg.h is not part of this model; its constants are taken as libubox
 gives them: BLOBMSG_TYPE_UNSPEC 0, ARRAY 1, TABLE 2, a 2-byte header before
 the name, and headers padded like blob attributes.  The name length is read
 in host byte order, which is left abstract: a field carries it as a number.
 */
module BlobMsg {
  import opened Wrappers
  import opened CArith
  import opened BlobLayout
  import opened Blob
  import opened BlobNest

  const UNSPEC: nat := 0
  const ARRAY: nat := 1
  const TABLE: nat := 2

  /** sizeof(struct blobmsg_hdr): the 16-bit name length before the name. */
  const MSG_HDR: nat := 2

  const U16_RANGE: nat := 0x1_0000
  type u16 = x: nat | x < U16_RANGE

  /** blobmsg_hdrlen: the header, the name and its NUL, padded. */
  function HdrLen(namelen: nat): (r: nat)
    ensures r % ALIGN == 0 && MSG_HDR + namelen + 1 <= r < MSG_HDR + namelen + 1 + ALIGN
  {
    Pad(MSG_HDR + namelen + 1)
  }

  /** A C string: no NUL byte inside. */
  predicate NulFree(s: seq<byte>) {
    forall i :: 0 <= i < |s| ==> s[i] != 0
  }

  /**
   An attribute as blobmsg reads it: the header word, the 16-bit name length
   that opens the payload, and the bytes from the first name byte on, up to
   the end of the buffer (so possibly past the attribute).
   */
  datatype Field = Field(w: Word, namelen: u16, tail: seq<byte>)

  /** The attribute lies inside the buffer: its payload does not pass the end of `tail`. */
  predicate Whole(f: Field) {
    RawLen(f.w) >= HDR && PayloadLen(f.w) <= MSG_HDR + |f.tail|
  }

  /** Two fields with the same header word and the same payload bytes (whatever follows them). */
  predicate SamePayload(f: Field, g: Field)
    requires Whole(f) && Whole(g)
  {
    && f.w == g.w
    && (PayloadLen(f.w) >= MSG_HDR ==>
          f.namelen == g.namelen && f.tail[..PayloadLen(f.w) - MSG_HDR] == g.tail[..PayloadLen(f.w) - MSG_HDR])
  }

  /**
   blobmsg_check_attr as written (blobmsg.c:18-36).  It bounds the name
   length only by the payload length, so the NUL it reads at
   `name[namelen]` can lie past the attribute; None when it lies past the
   buffer.
   */
  function CheckAttrAsWritten(f: Field, name: bool): (r: Option<bool>)
    ensures r == Some(true) ==> PayloadLen(f.w) >= MSG_HDR && f.namelen <= PayloadLen(f.w)
    ensures r == Some(true) ==> f.namelen < |f.tail| && f.tail[f.namelen] == 0 && (name ==> f.namelen > 0)
    ensures r.None? <==> PayloadLen(f.w) >= MSG_HDR && !(f.namelen == 0 && name)
                         && f.namelen <= PayloadLen(f.w) && f.namelen >= |f.tail|
  {
    if PayloadLen(f.w) < MSG_HDR then Some(false)
    else if f.namelen == 0 && name then Some(false)
    else if f.namelen > PayloadLen(f.w) then Some(false)
    else if f.namelen >= |f.tail| then None
    else Some(f.tail[f.namelen] == 0)
  }

  /**
   blobmsg_check_attr with the name bound the format needs: the header, the
   name and its NUL fit the payload.  Every byte it reads lies inside the
   attribute.
   */
  function CheckAttr(f: Field, name: bool): (r: bool)
    requires Whole(f)
    ensures r ==> MSG_HDR + f.namelen + 1 <= PayloadLen(f.w) && f.tail[f.namelen] == 0
    ensures r ==> (name ==> f.namelen > 0)
    ensures r <==> PayloadLen(f.w) >= MSG_HDR && !(f.namelen == 0 && name)
                   && HdrLen(f.namelen) <= PayloadLen(f.w) && f.tail[f.namelen] == 0
  {
    if PayloadLen(f.w) < MSG_HDR then false
    else if f.namelen == 0 && name then false
    else if HdrLen(f.namelen) > PayloadLen(f.w) then false
    else f.tail[f.namelen] == 0
  }

  /** The corrected check depends on the attribute's own bytes only. */
  lemma CheckAttrLocal(f: Field, g: Field, name: bool)
    requires Whole(f) && Whole(g) && SamePayload(f, g)
    ensures CheckAttr(f, name) == CheckAttr(g, name)
  {
    if PayloadLen(f.w) >= MSG_HDR && HdrLen(f.namelen) <= PayloadLen(f.w) {
      var n := PayloadLen(f.w) - MSG_HDR;
      assert f.tail[f.namelen] == f.tail[..n][f.namelen];
      assert g.tail[g.namelen] == g.tail[..n][g.namelen];
    }
  }

  /** The corrected check accepts only what the check as written accepts. */
  lemma CheckAttrStricter(f: Field, name: bool)
    requires Whole(f) && CheckAttr(f, name)
    ensures CheckAttrAsWritten(f, name) == Some(true)
  {
  }

  /**
   As written, two attributes with the same header and payload get different
   verdicts, decided by the byte after the attribute: a 4-byte payload
   holding name length 2 and the name "ab", followed by 0 or by 1.
   */
  lemma CheckAttrReadsPast()
    ensures var f := Field(Word(3, HDR + 4), 2, [97, 98, 0]);
            var g := Field(Word(3, HDR + 4), 2, [97, 98, 1]);
            && Whole(f) && Whole(g) && SamePayload(f, g)
            && CheckAttrAsWritten(f, true) == Some(true)
            && CheckAttrAsWritten(g, true) == Some(false)
            && !CheckAttr(f, true) && !CheckAttr(g, true)
  {
    var f := Field(Word(3, HDR + 4), 2, [97, 98, 0]);
    var g := Field(Word(3, HDR + 4), 2, [97, 98, 1]);
    assert f.tail[..2] == g.tail[..2];
    assert HdrLen(2) == 8;
  }

  /**
   `strcmp(name, t) == 0` for a C string `name`: the bytes of `t` match it
   and a NUL follows.  The comparison stops at the first difference.
   */
  predicate StrEq(name: seq<byte>, t: seq<byte>)
    decreases |name|
  {
    |t| > 0 && (if name == [] then t[0] == 0 else t[0] == name[0] && StrEq(name[1..], t[1..]))
  }

  /** strcmp finds equal exactly the strings whose bytes match, NUL included. */
  lemma {:induction false} StrEqSpec(name: seq<byte>, t: seq<byte>)
    requires NulFree(name)
    ensures StrEq(name, t) <==> |t| > |name| && t[..|name|] == name && t[|name|] == 0
    decreases |name|
  {
    if name != [] && |t| > 0 {
      StrEqSpec(name[1..], t[1..]);
      if |t| > |name| {
        assert t[..|name|] == [t[0]] + t[1..][..|name| - 1];
        assert name == [name[0]] + name[1..];
      }
    }
  }

  /** A `struct blobmsg_policy`: a name (NULL allowed) and a type, UNSPEC matching any. */
  datatype Policy = Policy(name: Option<seq<byte>>, kind: nat)

  /** The policy names are C strings. */
  predicate PolicyOk(policy: seq<Policy>) {
    forall j :: 0 <= j < |policy| ==> policy[j].name.Some? ==> NulFree(policy[j].name.value)
  }

  /** The attributes all lie inside the buffer. */
  predicate AllWhole(attrs: seq<Field>) {
    forall k :: 0 <= k < |attrs| ==> Whole(attrs[k])
  }

  /**
   An attribute blobmsg_parse looks at closely for a policy (blobmsg.c:58-66):
   the policy has a name, the type fits, and the name length equals
   `pslen`, the name's length truncated to 8 bits.
   */
  predicate Candidate(p: Policy, a: Field) {
    && p.name.Some?
    && (p.kind == UNSPEC || a.w.id == p.kind)
    && a.namelen == |p.name.value| % 0x100
  }

  /** An attribute that passes the check and carries the policy's name. */
  predicate FullMatch(p: Policy, a: Field)
    requires Whole(a)
  {
    Candidate(p, a) && CheckAttr(a, true) && StrEq(p.name.value, a.tail)
  }

  /**
   The inner loop of blobmsg_parse as written (blobmsg.c:57-78) on attribute
   number `k`, from policy `i` on: the table and whether to go on; None when
   the check reads past the buffer.  A candidate that passes the check fails
   the parse when its entry is already filled, before the names are compared.
   */
  function MatchAsWritten(policy: seq<Policy>, tb: seq<Option<nat>>, a: Field, k: nat, i: nat): Option<(seq<Option<nat>>, bool)>
    requires |tb| == |policy| && i <= |policy|
    decreases |policy| - i
  {
    if i == |policy| then Some((tb, true))
    else if !Candidate(policy[i], a) then MatchAsWritten(policy, tb, a, k, i + 1)
    else match CheckAttrAsWritten(a, true)
      case None => None
      case Some(ok) =>
        if !ok then Some((tb, false))
        else if tb[i].Some? then Some((tb, false))
        else if !StrEq(policy[i].name.value, a.tail) then MatchAsWritten(policy, tb, a, k, i + 1)
        else MatchAsWritten(policy, tb[i := Some(k)], a, k, i + 1)
  }

  /**
   The inner loop with the duplicate test after the name comparison, so
   that only a second attribute of the same name fails the parse.
   */
  function Match(policy: seq<Policy>, tb: seq<Option<nat>>, a: Field, k: nat, i: nat): (r: (seq<Option<nat>>, bool))
    requires |tb| == |policy| && i <= |policy| && Whole(a)
    ensures |r.0| == |policy|
    decreases |policy| - i
  {
    if i == |policy| then (tb, true)
    else if !Candidate(policy[i], a) then Match(policy, tb, a, k, i + 1)
    else if !CheckAttr(a, true) then (tb, false)
    else if !StrEq(policy[i].name.value, a.tail) then Match(policy, tb, a, k, i + 1)
    else if tb[i].Some? then (tb, false)
    else Match(policy, tb[i := Some(k)], a, k, i + 1)
  }

  /** The table blobmsg_parse starts from: every entry NULL. */
  function Cleared(n: nat): (tb: seq<Option<nat>>)
    ensures |tb| == n && forall j :: 0 <= j < n ==> tb[j].None?
  {
    seq(n, _ => None)
  }

  /** The outer loop as written over the first `n` attributes. */
  function ScanAsWritten(policy: seq<Policy>, attrs: seq<Field>, n: nat): Option<(seq<Option<nat>>, bool)>
    requires n <= |attrs|
  {
    if n == 0 then Some((Cleared(|policy|), true))
    else match ScanAsWritten(policy, attrs, n - 1)
      case None => None
      case Some((tb, ok)) =>
        if !ok then Some((tb, false))
        else if |tb| != |policy| then None
        else MatchAsWritten(policy, tb, attrs[n - 1], n - 1, 0)
  }

  /** The outer loop, corrected, over the first `n` attributes. */
  function Scan(policy: seq<Policy>, attrs: seq<Field>, n: nat): (r: (seq<Option<nat>>, bool))
    requires n <= |attrs| && AllWhole(attrs)
    ensures |r.0| == |policy|
  {
    if n == 0 then (Cleared(|policy|), true)
    else
      var (tb, ok) := Scan(policy, attrs, n - 1);
      if !ok then (tb, false) else Match(policy, tb, attrs[n - 1], n - 1, 0)
  }

  /** What blobmsg_parse leaves: the table, and 0 or -1. */
  datatype MsgResult = MsgResult(tb: seq<Option<nat>>, ret: int)

  /** blobmsg_parse as written (blobmsg.c:38-82); None when a check reads past the buffer. */
  function ParseAsWritten(policy: seq<Policy>, attrs: seq<Field>): Option<MsgResult> {
    match ScanAsWritten(policy, attrs, |attrs|)
    case None => None
    case Some((tb, ok)) => Some(MsgResult(tb, if ok then 0 else -1))
  }

  /** blobmsg_parse, corrected: the check bounds the name, and duplicates are told apart by name. */
  function Parse(policy: seq<Policy>, attrs: seq<Field>): (r: MsgResult)
    requires AllWhole(attrs)
    ensures |r.tb| == |policy| && (r.ret == 0 || r.ret == -1)
  {
    var (tb, ok) := Scan(policy, attrs, |attrs|);
    MsgResult(tb, if ok then 0 else -1)
  }

  /** An attribute that fails the parse: a candidate failing the check, or a second attribute of a policy's name. */
  predicate Bad(policy: seq<Policy>, attrs: seq<Field>, k: nat)
    requires AllWhole(attrs) && k < |attrs|
  {
    || (exists j :: 0 <= j < |policy| && Candidate(policy[j], attrs[k]) && !CheckAttr(attrs[k], true))
    || (exists j, k' :: 0 <= j < |policy| && 0 <= k' < k && FullMatch(policy[j], attrs[k']) && FullMatch(policy[j], attrs[k]))
  }

  /** Every filled entry holds an earlier attribute that fully matches its policy. */
  predicate Sound(policy: seq<Policy>, attrs: seq<Field>, n: nat, tb: seq<Option<nat>>)
    requires AllWhole(attrs) && n <= |attrs| && |tb| == |policy|
  {
    forall j :: 0 <= j < |tb| && tb[j].Some? ==> tb[j].value < n && FullMatch(policy[j], attrs[tb[j].value])
  }

  /** Every earlier attribute that fully matches a policy fills its entry. */
  predicate Complete(policy: seq<Policy>, attrs: seq<Field>, n: nat, tb: seq<Option<nat>>)
    requires AllWhole(attrs) && n <= |attrs| && |tb| == |policy|
  {
    forall j, k :: 0 <= j < |tb| && 0 <= k < n && FullMatch(policy[j], attrs[k]) ==> tb[j] == Some(k)
  }

  /**
   The inner loop from policy `i` on: it fails exactly when a candidate
   fails the check or a fully matching policy's entry is already filled, and
   otherwise it fills exactly the entries of the policies the attribute fully
   matches.
   */
  lemma {:induction false} MatchSpec(policy: seq<Policy>, tb: seq<Option<nat>>, a: Field, k: nat, i: nat)
    requires |tb| == |policy| && i <= |policy| && Whole(a)
    ensures var r := Match(policy, tb, a, k, i);
            && (r.1 <==> forall j :: i <= j < |policy| ==>
                          (Candidate(policy[j], a) ==> CheckAttr(a, true)) && !(FullMatch(policy[j], a) && tb[j].Some?))
            && (forall j :: 0 <= j < |policy| ==> r.0[j] == tb[j] || (i <= j && FullMatch(policy[j], a) && r.0[j] == Some(k)))
            && (r.1 ==> forall j :: 0 <= j < |policy| ==> r.0[j] == if i <= j && FullMatch(policy[j], a) then Some(k) else tb[j])
    decreases |policy| - i
  {
    if i < |policy| {
      if !Candidate(policy[i], a) {
        MatchSpec(policy, tb, a, k, i + 1);
      } else if !CheckAttr(a, true) {
      } else if !StrEq(policy[i].name.value, a.tail) {
        MatchSpec(policy, tb, a, k, i + 1);
      } else if tb[i].Some? {
      } else {
        MatchSpec(policy, tb[i := Some(k)], a, k, i + 1);
      }
    }
  }

  /** The inner loop keeps the table sound, whether or not it fails. */
  lemma StepSound(policy: seq<Policy>, attrs: seq<Field>, n: nat, tb: seq<Option<nat>>)
    requires 0 < n <= |attrs| && AllWhole(attrs) && |tb| == |policy|
    requires Sound(policy, attrs, n - 1, tb)
    ensures Sound(policy, attrs, n, Match(policy, tb, attrs[n - 1], n - 1, 0).0)
  {
    MatchSpec(policy, tb, attrs[n - 1], n - 1, 0);
  }

  /** From a complete table, the inner loop goes on only when the new attribute is not bad. */
  lemma StepOkNotBad(policy: seq<Policy>, attrs: seq<Field>, n: nat, tb: seq<Option<nat>>)
    requires 0 < n <= |attrs| && AllWhole(attrs) && |tb| == |policy|
    requires Complete(policy, attrs, n - 1, tb)
    requires Match(policy, tb, attrs[n - 1], n - 1, 0).1
    ensures !Bad(policy, attrs, n - 1)
  {
    var a := attrs[n - 1];
    MatchSpec(policy, tb, a, n - 1, 0);
    forall j, k' | 0 <= j < |policy| && 0 <= k' < n - 1 && FullMatch(policy[j], attrs[k'])
      ensures !FullMatch(policy[j], a)
    {
      assert tb[j] == Some(k');
    }
  }

  /** From a sound table, the inner loop fails only on a bad attribute. */
  lemma StepFailsBad(policy: seq<Policy>, attrs: seq<Field>, n: nat, tb: seq<Option<nat>>)
    requires 0 < n <= |attrs| && AllWhole(attrs) && |tb| == |policy|
    requires Sound(policy, attrs, n - 1, tb)
    requires !Match(policy, tb, attrs[n - 1], n - 1, 0).1
    ensures Bad(policy, attrs, n - 1)
  {
    var a := attrs[n - 1];
    MatchSpec(policy, tb, a, n - 1, 0);
    var j :| 0 <= j < |policy| && !((Candidate(policy[j], a) ==> CheckAttr(a, true)) && !(FullMatch(policy[j], a) && tb[j].Some?));
    if !(Candidate(policy[j], a) && !CheckAttr(a, true)) {
      var k' := tb[j].value;
      assert FullMatch(policy[j], attrs[k']) && FullMatch(policy[j], attrs[n - 1]);
    }
  }

  /** When the inner loop goes on, the table stays complete. */
  lemma StepComplete(policy: seq<Policy>, attrs: seq<Field>, n: nat, tb: seq<Option<nat>>)
    requires 0 < n <= |attrs| && AllWhole(attrs) && |tb| == |policy|
    requires Complete(policy, attrs, n - 1, tb)
    requires Match(policy, tb, attrs[n - 1], n - 1, 0).1
    ensures Complete(policy, attrs, n, Match(policy, tb, attrs[n - 1], n - 1, 0).0)
  {
    var a := attrs[n - 1];
    MatchSpec(policy, tb, a, n - 1, 0);
    var r := Match(policy, tb, a, n - 1, 0);
    forall j, k | 0 <= j < |policy| && 0 <= k < n && FullMatch(policy[j], attrs[k]) ensures r.0[j] == Some(k) {
      if k < n - 1 {
        assert tb[j] == Some(k);
      }
    }
  }

  /**
   After the first `n` attributes: the table is sound; the parse is still
   going exactly when none of them is bad, and then the table is complete.
   */
  lemma {:induction false} ScanSpec(policy: seq<Policy>, attrs: seq<Field>, n: nat)
    requires n <= |attrs| && AllWhole(attrs)
    ensures var r := Scan(policy, attrs, n);
            && Sound(policy, attrs, n, r.0)
            && (r.1 <==> forall k :: 0 <= k < n ==> !Bad(policy, attrs, k))
            && (r.1 ==> Complete(policy, attrs, n, r.0))
  {
    if n > 0 {
      ScanSpec(policy, attrs, n - 1);
      var (tb, ok) := Scan(policy, attrs, n - 1);
      if ok {
        StepSound(policy, attrs, n, tb);
        if Match(policy, tb, attrs[n - 1], n - 1, 0).1 {
          StepOkNotBad(policy, attrs, n, tb);
          StepComplete(policy, attrs, n, tb);
        } else {
          StepFailsBad(policy, attrs, n, tb);
        }
      }
    }
  }

  /**
   blobmsg_parse, corrected: each filled entry holds an attribute of the
   policy's type (or any, for UNSPEC), name and name length that passes the
   check; the result is -1 exactly when some attribute is a candidate failing
   the check or repeats a policy's name; and on 0 every attribute matching a
   policy fills its entry.
   */
  lemma ParseSpec(policy: seq<Policy>, attrs: seq<Field>)
    requires AllWhole(attrs)
    ensures var r := Parse(policy, attrs);
            && (forall j :: 0 <= j < |policy| && r.tb[j].Some? ==>
                  r.tb[j].value < |attrs| && FullMatch(policy[j], attrs[r.tb[j].value]))
            && (r.ret == -1 <==> exists k :: 0 <= k < |attrs| && Bad(policy, attrs, k))
            && (r.ret == 0 ==> forall j, k :: 0 <= j < |policy| && 0 <= k < |attrs| && FullMatch(policy[j], attrs[k]) ==> r.tb[j] == Some(k))
  {
    ScanSpec(policy, attrs, |attrs|);
  }

  /** A policy without a name never fills its entry. */
  lemma UnnamedNeverFilled(policy: seq<Policy>, attrs: seq<Field>, j: nat)
    requires AllWhole(attrs) && j < |policy| && policy[j].name.None?
    ensures Parse(policy, attrs).tb[j].None?
  {
    ParseSpec(policy, attrs);
  }

  /** A matched name equals the policy's name byte for byte, NUL-terminated. */
  lemma FullMatchName(p: Policy, a: Field)
    requires Whole(a) && FullMatch(p, a) && NulFree(p.name.value)
    ensures |a.tail| > |p.name.value| && a.tail[..|p.name.value|] == p.name.value && a.tail[|p.name.value|] == 0
  {
    StrEqSpec(p.name.value, a.tail);
  }

  /**
   As written, an attribute of another name but the same name length fails
   the parse once the entry is filled: policy "ab" of any type, attributes
   "ab" then "cd".  Corrected, the parse succeeds with "ab" in the entry.
   */
  lemma DuplicateBeforeName()
    ensures var policy := [Policy(Some([97, 98]), UNSPEC)];
            var ab := Field(Word(3, HDR + 8), 2, [97, 98, 0, 0, 0, 0]);
            var cd := Field(Word(3, HDR + 8), 2, [99, 100, 0, 0, 0, 0]);
            && AllWhole([ab, cd])
            && ParseAsWritten(policy, [ab, cd]) == Some(MsgResult([Some(0)], -1))
            && Parse(policy, [ab, cd]) == MsgResult([Some(0)], 0)
  {
    var policy := [Policy(Some([97, 98]), UNSPEC)];
    var ab := Field(Word(3, HDR + 8), 2, [97, 98, 0, 0, 0, 0]);
    var cd := Field(Word(3, HDR + 8), 2, [99, 100, 0, 0, 0, 0]);
    var attrs := [ab, cd];
    assert HdrLen(2) == 8;
    assert StrEq([98], [98, 0, 0, 0, 0]);
    assert StrEq([97, 98], ab.tail);
    assert !StrEq([97, 98], cd.tail);
    assert CheckAttr(ab, true) && CheckAttr(cd, true);
    assert Cleared(1) == [None];
    assert Match(policy, [Some(0)], ab, 0, 1) == ([Some(0)], true);
    assert [None][0 := Some(0)] == [Some(0)];
    assert Candidate(policy[0], ab) && Candidate(policy[0], cd);
    assert Match(policy, [None], ab, 0, 0) == ([Some(0)], true);
    assert Match(policy, [Some(0)], cd, 1, 1) == ([Some(0)], true);
    assert Match(policy, [Some(0)], cd, 1, 0) == ([Some(0)], true);
    assert Scan(policy, attrs, 1) == ([Some(0)], true);
    assert Scan(policy, attrs, 2) == ([Some(0)], true);
    assert CheckAttrAsWritten(ab, true) == Some(true);
    assert MatchAsWritten(policy, [Some(0)], ab, 0, 1) == Some(([Some(0)], true));
    assert MatchAsWritten(policy, [None], ab, 0, 0) == Some(([Some(0)], true));
    assert MatchAsWritten(policy, [Some(0)], cd, 1, 0) == Some(([Some(0)], false));
    assert ScanAsWritten(policy, attrs, 0) == Some((Cleared(1), true));
    assert ScanAsWritten(policy, attrs, 1) == Some(([Some(0)], true));
    assert ScanAsWritten(policy, attrs, 2) == Some(([Some(0)], false));
  }

  /**
   Whether the container at the head takes a field with this name: an array
   takes unnamed fields, a table named ones (blobmsg.c:92-99).
   */
  predicate Takes(b: BlobBuf, name: Option<seq<byte>>)
    requires b.head.Some? && Read(b, b.head.value).Some?
  {
    var id := Read(b, b.head.value).value.id;
    (id == ARRAY && name.None?) || (id == TABLE && name.Some?)
  }

  /** The payload blobmsg_new asks blob_new for: the name header comes first in a table. */
  function FieldPayload(name: Option<seq<byte>>, payload: int): int {
    if name.Some? then HdrLen(|name.value|) + payload else payload
  }

  /**
   blobmsg_new (blobmsg.c:85-113): in an array, a plain blob_new; in a table,
   blob_new with room for the name header, then the name length (as
   uint16_t) and the name with its NUL written at the payload's start.
   */
  function MsgNew(b: BlobBuf, kind: int, name: Option<seq<byte>>, payload: int, mem: bool): (r: Run<Option<nat>>)
    ensures (b.head.None? || Read(b, b.head.value).None?) ==> r.Undefined?
    ensures r.Run? && r.v.Some? ==> Takes(b, name)
    ensures r.Run? && !Takes(b, name) ==> r == Run(b, None)
    ensures r.Run? ==> r.b.head == b.head && r.b.grower == b.grower
    ensures r.Run? && name.None? ==> r.b.bodies == b.bodies
    ensures r.Run? && r.v.Some? && name.Some? ==>
              r.b.bodies == b.bodies[r.v.value := Named(|name.value| % U16_RANGE, name.value, [])]
    ensures r.Run? && Takes(b, name) ==> New(b, kind, FieldPayload(name, payload), mem).Run?
  {
    match b.head
    case None => Undefined
    case Some(h) =>
      match Read(b, h)
      case None => Undefined
      case Some(hw) =>
        if hw.id == ARRAY && name.None? then New(b, kind, payload, mem)
        else if hw.id != TABLE || name.None? then Run(b, None)
        else NewNamed(b, kind, name.value, payload, mem)
  }

  /** The table branch of blobmsg_new: room for the name header, and the name written into it. */
  function NewNamed(b: BlobBuf, kind: int, name: seq<byte>, payload: int, mem: bool): Run<Option<nat>> {
    var n := |name|;
    match New(b, kind, HdrLen(n) + payload, mem)
    case Undefined => Undefined
    case Run(b1, None) => Run(b1, None)
    case Run(b1, Some(at)) => Run(b1.(bodies := b1.bodies[at := Named(n % U16_RANGE, name, [])]), Some(at))
  }

  /** Builder invariants look at the live flag, the head and the words only. */
  lemma BuildingBodies(b: BlobBuf, stack: seq<Frame>, b2: BlobBuf)
    requires Building(b, stack)
    requires b2.live == b.live && b2.head == b.head && b2.words == b.words
    ensures Building(b2, stack)
  {
  }

  /** blobmsg_new writes blob_new's words. */
  lemma MsgNewWords(b: BlobBuf, kind: int, name: Option<seq<byte>>, payload: int, mem: bool)
    requires b.head.Some? && Read(b, b.head.value).Some? && Takes(b, name)
    requires MsgNew(b, kind, name, payload, mem).Run?
    ensures var r, n := MsgNew(b, kind, name, payload, mem), New(b, kind, FieldPayload(name, payload), mem);
            n.Run? && r.v == n.v && r.b.live == n.b.live && r.b.head == n.b.head && r.b.words == n.b.words
  {
  }

  /**
   blobmsg_new keeps a well-built buffer well built: the field lands where
   the head ends, with raw length header, name header (in a table) and
   payload.
   */
  lemma MsgNewBuilding(b: BlobBuf, stack: seq<Frame>, kind: int, name: Option<seq<byte>>, payload: int, mem: bool)
    requires Building(b, stack)
    requires 0 <= payload && RawLen(b.words[Top(stack).at]) + Pad(FieldPayload(name, payload) + HDR) < LEN_RANGE
    requires MsgNew(b, kind, name, payload, mem).Run? && MsgNew(b, kind, name, payload, mem).v.Some?
    ensures var r := MsgNew(b, kind, name, payload, mem);
            && Building(r.b, stack)
            && r.v.value == Top(stack).at + RawLen(b.words[Top(stack).at])
            && RawLen(r.b.words[r.v.value]) == HDR + FieldPayload(name, payload)
            && r.b.words[r.v.value].id == kind % ID_RANGE
  {
    var p := FieldPayload(name, payload);
    MsgNewWords(b, kind, name, payload, mem);
    PadAligned(RawLen(b.words[b.head.value]));
    NewWords(b, kind, p, mem);
    NewBuilding(b, stack, kind, p, mem);
    HeaderLen(kind, p);
    BuildingBodies(New(b, kind, p, mem).b, stack, MsgNew(b, kind, name, payload, mem).b);
  }

  /**
   blobmsg_open_nested (blobmsg.c:122-141).  In an array without a name it
   is blob_nest_start.  In a table with a name it adds the field with an
   empty value, takes back from the old head the name header blob_new
   counted, and makes the field the head (NULL if it could not be added).
   The answer is the old head's offset, None for NULL; an offset of 0 is
   itself the null pointer in C.
   */
  function OpenNested(b: BlobBuf, name: Option<seq<byte>>, asArray: bool, mem: bool): (r: Run<Option<nat>>)
    ensures (b.head.None? || Read(b, b.head.value).None?) ==> r.Undefined?
    ensures r.Run? && r.v.Some? ==> Takes(b, name) && r.v == b.head
    ensures r.Run? && !Takes(b, name) ==> r == Run(b, None)
    ensures r.Run? && Takes(b, name) ==> r.v.Some?
  {
    var kind := if asArray then ARRAY else TABLE;
    match b.head
    case None => Undefined
    case Some(h) =>
      match Read(b, h)
      case None => Undefined
      case Some(hw) =>
        if hw.id == ARRAY && name.None? then
          match NestStart(b, kind, mem)
          case Undefined => Undefined
          case Run(b1, c) => Run(b1, Some(c))
        else if hw.id == TABLE && name.Some? then OpenTable(b, h, kind, name.value, mem)
        else Run(b, None)
  }

  /**
   The table branch of blobmsg_open_nested from the head at `h`: the field
   with an empty value, then the name header taken back from the old head,
   which happens even when blobmsg_new failed.  The old head is written
   through `buf->head`, not `buf->buf`: when the default grower's realloc
   failed, the old block is still allocated and the write lands in it.
   */
  function OpenTable(b: BlobBuf, h: nat, kind: int, name: seq<byte>, mem: bool): Run<Option<nat>> {
    match MsgNew(b, kind, Some(name), 0, mem)
    case Undefined => Undefined
    case Run(b1, at) =>
      if h !in b1.words then Undefined
      else
        var hw1 := b1.words[h];
        var len := U32(PadLen(hw1) - HdrLen(|name|));
        Run(b1.(words := b1.words[h := SetRawLen(hw1, len)], head := at), Some(h))
  }

  /**
   When blobmsg_new cannot add the field, opening a table in a table still
   answers the old head's offset and leaves `head` NULL (blobmsg.c:133-137),
   whether the realloc of the default grower or a custom grower failed.
   */
  lemma OpenTableGrowFails(b: BlobBuf, name: seq<byte>, asArray: bool, mem: bool)
    requires b.head.Some? && Read(b, b.head.value).Some? && b.words[b.head.value].id == TABLE
    requires MsgNew(b, if asArray then ARRAY else TABLE, Some(name), 0, mem).Run?
    requires MsgNew(b, if asArray then ARRAY else TABLE, Some(name), 0, mem).v.None?
    ensures var r := OpenNested(b, Some(name), asArray, mem);
            && r.Run? && r.v == b.head && r.b.head.None?
            && r.b.live == MsgNew(b, if asArray then ARRAY else TABLE, Some(name), 0, mem).b.live
  {
    var kind := if asArray then ARRAY else TABLE;
    MsgNewKeepsWords(b, kind, name, mem);
  }

  /** A blobmsg_new that adds nothing leaves every header word where it was. */
  lemma MsgNewKeepsWords(b: BlobBuf, kind: int, name: seq<byte>, mem: bool)
    requires b.head.Some? && Read(b, b.head.value).Some?
    requires MsgNew(b, kind, Some(name), 0, mem).Run? && MsgNew(b, kind, Some(name), 0, mem).v.None?
    ensures MsgNew(b, kind, Some(name), 0, mem).b.words == b.words
  {
  }

  /**
   A one-word table buffer whose default grower's realloc fails: opening a
   named table in it answers offset 0, the buffer is no longer live, and
   `head` is NULL.
   */
  lemma OpenTableReallocFails()
    ensures var b := BlobBuf(true, 4, Some(0), map[0 := Word(TABLE, 4)], map[], DefaultGrower);
            var r := OpenNested(b, Some([97]), false, false);
            r.Run? && r.v == Some(0) && r.b.head.None? && !r.b.live
  {
    var b := BlobBuf(true, 4, Some(0), map[0 := Word(TABLE, 4)], map[], DefaultGrower);
    OpenTableGrowFails(b, [97], false, false);
  }

  /**
   Taking the name header back from a head grown by an empty named field
   leaves it grown by the field's bare header.
   */
  lemma ShrinkHead(hw: Word, kind: int, n: nat)
    requires RawLen(hw) % ALIGN == 0 && RawLen(hw) + HDR + HdrLen(n) < LEN_RANGE
    ensures var hw1 := SetRawLen(hw, U32(PadLen(hw) + PadLen(Header(kind, HdrLen(n)))));
            SetRawLen(hw1, U32(PadLen(hw1) - HdrLen(n))) == SetRawLen(hw, RawLen(hw) + HDR)
  {
    PadAligned(RawLen(hw));
    HeaderLen(kind, HdrLen(n));
    AlignedAdd(HDR, HdrLen(n));
    PadAligned(HDR + HdrLen(n));
    var hw1 := SetRawLen(hw, U32(PadLen(hw) + PadLen(Header(kind, HdrLen(n)))));
    assert RawLen(hw1) == RawLen(hw) + HDR + HdrLen(n);
    AlignedAdd(RawLen(hw), HDR + HdrLen(n));
    PadAligned(RawLen(hw1));
  }

  /** Opening a table in a table is blobmsg_new followed by the head's correction. */
  lemma OpenTableStep(b: BlobBuf, h: nat, kind: int, name: seq<byte>, mem: bool)
    requires OpenTable(b, h, kind, name, mem).Run?
    ensures var r, m := OpenTable(b, h, kind, name, mem), MsgNew(b, kind, Some(name), 0, mem);
            && m.Run? && h in m.b.words && r.b.live == m.b.live && r.b.head == m.v
            && r.b.words == m.b.words[h := SetRawLen(m.b.words[h], U32(PadLen(m.b.words[h]) - HdrLen(|name|)))]
  {
  }

  /** blobmsg_new of a named field with an empty value in a table writes blob_new's words. */
  lemma MsgNewTableWords(b: BlobBuf, h: nat, kind: int, name: seq<byte>, mem: bool)
    requires b.head == Some(h) && Read(b, h).Some? && b.words[h].id == TABLE && PadLen(b.words[h]) > 0
    requires MsgNew(b, kind, Some(name), 0, mem).Run? && MsgNew(b, kind, Some(name), 0, mem).v.Some?
    ensures var hw, hdr := b.words[h], Header(kind, HdrLen(|name|));
            var m := MsgNew(b, kind, Some(name), 0, mem);
            && m.v == Some(NextPos(h, hw)) && m.b.live
            && m.b.words == b.words[NextPos(h, hw) := hdr][h := SetRawLen(hw, U32(PadLen(hw) + PadLen(hdr)))]
  {
    MsgNewWords(b, kind, Some(name), 0, mem);
    NewWords(b, kind, HdrLen(|name|), mem);
  }

  /**
   The words of opening a table in a table, given blobmsg_new's words: the
   head's correction overwrites the length blob_new gave it.
   */
  lemma TableWords(words: map<nat, Word>, h: nat, pos: nat, hdr: Word, hw1: Word, n: nat, t: Word, mw: map<nat, Word>, rw: map<nat, Word>)
    requires mw == words[pos := hdr][h := hw1]
    requires rw == mw[h := SetRawLen(mw[h], U32(PadLen(mw[h]) - HdrLen(n)))]
    requires SetRawLen(hw1, U32(PadLen(hw1) - HdrLen(n))) == t
    ensures rw == words[pos := hdr][h := t]
  {
    assert mw[h] == hw1;
  }

  /** The words of opening a table in a table, from blob_new's words and the correction of the head. */
  lemma TableResult(words: map<nat, Word>, h: nat, kind: int, n: nat, mw: map<nat, Word>, rw: map<nat, Word>)
    requires h in words
    requires var hw := words[h];
             RawLen(hw) % ALIGN == 0 && RawLen(hw) + HDR + HdrLen(n) < LEN_RANGE
    requires var hw, hdr := words[h], Header(kind, HdrLen(n));
             mw == words[NextPos(h, hw) := hdr][h := SetRawLen(hw, U32(PadLen(hw) + PadLen(hdr)))]
    requires h in mw && rw == mw[h := SetRawLen(mw[h], U32(PadLen(mw[h]) - HdrLen(n)))]
    ensures var hw := words[h];
            rw == words[h + RawLen(hw) := Header(kind, HdrLen(n))][h := SetRawLen(hw, RawLen(hw) + HDR)]
  {
    var hw, hdr := words[h], Header(kind, HdrLen(n));
    PadAligned(RawLen(hw));
    ShrinkHead(hw, kind, n);
    assert NextPos(h, hw) == h + RawLen(hw);
    TableWords(words, h, NextPos(h, hw), hdr, SetRawLen(hw, U32(PadLen(hw) + PadLen(hdr))), n, SetRawLen(hw, RawLen(hw) + HDR), mw, rw);
  }

  /** What opening a table in a table writes: the field's header, and the old head grown by one header. */
  lemma OpenTableWords(b: BlobBuf, h: nat, kind: int, name: seq<byte>, mem: bool)
    requires b.head == Some(h) && Read(b, h).Some? && b.words[h].id == TABLE
    requires RawLen(b.words[h]) % ALIGN == 0 && HDR <= RawLen(b.words[h])
    requires RawLen(b.words[h]) + HDR + HdrLen(|name|) < LEN_RANGE
    requires OpenTable(b, h, kind, name, mem).Run? && OpenTable(b, h, kind, name, mem).b.head.Some?
    ensures var r := OpenTable(b, h, kind, name, mem);
            && r.b.live && r.b.head == Some(h + RawLen(b.words[h]))
            && r.b.words == b.words[h + RawLen(b.words[h]) := Header(kind, HdrLen(|name|))][h := SetRawLen(b.words[h], RawLen(b.words[h]) + HDR)]
  {
    PadAligned(RawLen(b.words[h]));
    OpenTableStep(b, h, kind, name, mem);
    MsgNewTableWords(b, h, kind, name, mem);
    TableResult(b.words, h, kind, |name|, MsgNew(b, kind, Some(name), 0, mem).b.words, OpenTable(b, h, kind, name, mem).b.words);
  }

  /**
   blobmsg_open_nested keeps a well-built buffer well built: the old head
   stays open around the new container, which becomes the head; a table
   opened in a table skips its name header.  The answer is the old head.
   */
  lemma OpenNestedBuilding(b: BlobBuf, stack: seq<Frame>, name: Option<seq<byte>>, asArray: bool, mem: bool)
    requires Building(b, stack)
    requires RawLen(b.words[Top(stack).at]) + HDR + (if name.Some? then HdrLen(|name.value|) else 0) < LEN_RANGE
    requires OpenNested(b, name, asArray, mem).Run? && OpenNested(b, name, asArray, mem).b.head.Some?
    requires Takes(b, name)
    ensures var r := OpenNested(b, name, asArray, mem);
            && r.v == Some(Top(stack).at)
            && Building(r.b, stack + [Frame(r.b.head.value, if name.Some? then HdrLen(|name.value|) else 0)])
  {
    var kind := if asArray then ARRAY else TABLE;
    if name.None? {
      NestStartBuilding(b, stack, kind, mem);
    } else {
      assert OpenNested(b, name, asArray, mem) == OpenTable(b, Top(stack).at, kind, name.value, mem);
      OpenTableBuilding(b, stack, kind, name.value, mem);
    }
  }

  /** The table branch keeps a well-built buffer well built, the new table skipping its name header. */
  lemma OpenTableBuilding(b: BlobBuf, stack: seq<Frame>, kind: int, name: seq<byte>, mem: bool)
    requires Building(b, stack) && b.words[Top(stack).at].id == TABLE
    requires RawLen(b.words[Top(stack).at]) + HDR + HdrLen(|name|) < LEN_RANGE
    requires OpenTable(b, Top(stack).at, kind, name, mem).Run? && OpenTable(b, Top(stack).at, kind, name, mem).b.head.Some?
    ensures var r := OpenTable(b, Top(stack).at, kind, name, mem);
            Building(r.b, stack + [Frame(r.b.head.value, HdrLen(|name|))])
  {
    var h: nat := Top(stack).at;
    var r := OpenTable(b, h, kind, name, mem);
    TiledBounds(b.words, h + HDR + Top(stack).skip, h + RawLen(b.words[h]));
    OpenTableWords(b, h, kind, name, mem);
    HeaderLen(kind, HdrLen(|name|));
    OpenedBuilding(b, stack, Header(kind, HdrLen(|name|)), HdrLen(|name|), r.b);
  }

  /**
   blobmsg_add_field (blobmsg.c:143-162): containers are refused (they are
   opened with blobmsg_open_nested); otherwise blobmsg_new and a copy of the
   first `len` bytes of `data` when `len` is positive.
   */
  function AddField(b: BlobBuf, kind: int, name: Option<seq<byte>>, data: seq<byte>, len: int, mem: bool): (r: Run<int>)
    requires len > 0 ==> len <= |data|
    ensures r.Run? ==> r.v == 0 || r.v == -1
    ensures kind == ARRAY || kind == TABLE ==> r == Run(b, -1)
    ensures r.Run? && r.v == 0 ==>
              && MsgNew(b, kind, name, len, mem).Run? && MsgNew(b, kind, name, len, mem).v.Some?
              && Takes(b, name) && r.b.words == MsgNew(b, kind, name, len, mem).b.words
    ensures r.Run? && r.v == 0 && len > 0 ==>
              && MsgNew(b, kind, name, len, mem).Run? && MsgNew(b, kind, name, len, mem).v.Some?
              && var at := MsgNew(b, kind, name, len, mem).v.value;
                 r.b.bodies == b.bodies[at := if name.Some? then Named(|name.value| % U16_RANGE, name.value, data[..len])
                                              else Raw(data[..len])]
  {
    if kind == ARRAY || kind == TABLE then Run(b, -1)
    else match MsgNew(b, kind, name, len, mem)
      case Undefined => Undefined
      case Run(b1, None) => Run(b1, -1)
      case Run(b1, Some(at)) =>
        if len > 0 then
          var body := if name.Some? then Named(|name.value| % U16_RANGE, name.value, data[..len]) else Raw(data[..len]);
          Run(b1.(bodies := b1.bodies[at := body]), 0)
        else Run(b1, 0)
  }

  /**
   A field added to a well-built buffer keeps it well built; the field is
   the one blobmsg_new places where the head ended.
   */
  lemma AddFieldBuilding(b: BlobBuf, stack: seq<Frame>, kind: int, name: Option<seq<byte>>, data: seq<byte>, len: nat, mem: bool)
    requires Building(b, stack) && len <= |data|
    requires RawLen(b.words[Top(stack).at]) + Pad(FieldPayload(name, len) + HDR) < LEN_RANGE
    requires AddField(b, kind, name, data, len, mem).Run? && AddField(b, kind, name, data, len, mem).v == 0
    ensures Building(AddField(b, kind, name, data, len, mem).b, stack)
    ensures MsgNew(b, kind, name, len, mem).v == Some(Top(stack).at + RawLen(b.words[Top(stack).at]))
  {
    MsgNewBuilding(b, stack, kind, name, len, mem);
    var m := MsgNew(b, kind, name, len, mem);
    BuildingBodies(m.b, stack, AddField(b, kind, name, data, len, mem).b);
  }
}
