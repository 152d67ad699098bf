/**
  The edit screen's logic: the freshness badge, how the form is filled
  when it opens, the digit filter of the number fields, the checks run on
  a product name before it is shared, and the validation and storage of
  an item on save.
 */
module EditViewModel {
  import opened Wrappers
  import opened Calendar
  import opened Inventory
  import Text
  import Decimal
  import JavaHash
  import Sequences
  import PackDetection
  import MyApplication
  import InventoryRepository

  // ---------------------------------------------------------------------------
  // Freshness badge

  datatype FreshnessStatus = Safe | UseNow | Expired

  /**
    The badge for the date and notice currently in the form: no date is
    safe; otherwise the days left decide, with a notice that does not
    parse counting as 0.
   */
  function Freshness(expDate: Option<Date>, daysNoticeStr: string, today: Date): (r: FreshnessStatus)
    ensures expDate.None? ==> r == Safe
    ensures expDate.Some? ==> (r == Expired <==> expDate.value <= today)
    ensures expDate.Some? ==>
      (r == UseNow <==> 0 < DaysBetween(today, expDate.value) <= Decimal.Parse(daysNoticeStr).GetOr(0))
  {
    match expDate
    case None => Safe
    case Some(date) =>
      var daysRemaining := DaysBetween(today, date);
      var noticeDays := Decimal.Parse(daysNoticeStr).GetOr(0);
      if daysRemaining <= 0 then Expired
      else if daysRemaining <= noticeDays then UseNow
      else Safe
  }

  /** For a saved item shown in the form, the badge agrees with the item's own expired / expiring-soon flags. */
  lemma FreshnessOfItem(item: InventoryItem, today: Date)
    requires Decimal.InInt32(item.daysNotice)
    ensures Freshness(Some(item.expDate), Decimal.Show(item.daysNotice), today) ==
      if item.IsExpired(today) then Expired
      else if item.IsExpiringSoon(today) then UseNow
      else Safe
  {
    Decimal.ParseShow(item.daysNotice);
  }

  /** A notice that does not parse behaves exactly like a notice of "0". */
  lemma UnparsedNoticeIsZero(expDate: Option<Date>, daysNoticeStr: string, today: Date)
    requires Decimal.Parse(daysNoticeStr).None?
    ensures Freshness(expDate, daysNoticeStr, today) == Freshness(expDate, "0", today)
  {
    Decimal.ParseShow(0);
    assert Decimal.Show(0) == "0" by { assert Decimal.Digits(0) == "0"; }
  }

  /** The notice text matters only through the number it parses to: any text reading as `n` behaves like `n` written out. */
  lemma FreshnessOfParsedNotice(expDate: Option<Date>, daysNoticeStr: string, n: int, today: Date)
    requires Decimal.Parse(daysNoticeStr) == Some(n)
    ensures Freshness(expDate, daysNoticeStr, today) == Freshness(expDate, Decimal.Show(n), today)
  {
    Decimal.ParseShow(n);
  }

  /** A longer notice can only turn a safe badge into "use now", never the other way. */
  lemma FreshnessNoticeMonotone(expDate: Option<Date>, shorter: int, longer: int, today: Date)
    requires Decimal.InInt32(shorter) && Decimal.InInt32(longer) && shorter <= longer
    ensures Freshness(expDate, Decimal.Show(shorter), today) == UseNow ==> Freshness(expDate, Decimal.Show(longer), today) == UseNow
    ensures Freshness(expDate, Decimal.Show(longer), today) == Safe ==> Freshness(expDate, Decimal.Show(shorter), today) == Safe
  {
    Decimal.ParseShow(shorter);
    Decimal.ParseShow(longer);
  }

  // ---------------------------------------------------------------------------
  // The form

  /** The fields of the edit screen, as text where the user types them. */
  datatype Form = Form(
    isNewItem: bool,
    itemId: int,
    name: string,
    code: string,
    quantityStr: string,
    daysNoticeStr: string,
    expDate: Option<Date>)

  /** The fields' initial values. */
  function BlankForm(isNewItem: bool, itemId: int): Form {
    Form(isNewItem, itemId, "", "", "1", "60", None)
  }

  /** The id the screen is opened with when it creates an item rather than editing one. */
  const NoItem: int := -1

  /**
    `init`: editing an existing id fills the form from the item with that
    id (or leaves the defaults when there is none); creating takes the
    counter's value as the new id, increments the counter and dates the
    item today.
   */
  function Init(app: MyApplication.App, itemIdToLoad: int, today: Date): (r: (Form, MyApplication.App))
    ensures r.0.isNewItem <==> itemIdToLoad == NoItem
    ensures r.0.isNewItem ==>
      r.0.itemId == app.nextID && r.1 == app.(nextID := app.nextID + 1) && r.0.expDate == Some(today)
    ensures !r.0.isNewItem ==> r.0.itemId == itemIdToLoad && r.1 == app
    ensures !r.0.isNewItem && MyApplication.GetInventoryItemById(app, itemIdToLoad).Some? ==>
      var item := MyApplication.GetInventoryItemById(app, itemIdToLoad).value;
      r.0 == Form(false, itemIdToLoad, item.name, item.code, Decimal.Show(item.quantity),
                  Decimal.Show(item.daysNotice), Some(item.expDate))
  {
    if itemIdToLoad != NoItem then
      match MyApplication.GetInventoryItemById(app, itemIdToLoad)
      case Some(item) =>
        (Form(false, itemIdToLoad, item.name, item.code, Decimal.Show(item.quantity),
              Decimal.Show(item.daysNotice), Some(item.expDate)), app)
      case None => (BlankForm(false, itemIdToLoad), app)
    else
      (BlankForm(true, app.nextID).(expDate := Some(today)), app.(nextID := app.nextID + 1))
  }

  /** A new item's id is not taken, and the counter stays above every id. */
  lemma NewItemIdIsFresh(app: MyApplication.App, today: Date)
    requires MyApplication.IdsBelowCounter(app)
    ensures var (form, next) := Init(app, NoItem, today);
      !InventoryRepository.HasItemId(app.items, form.itemId) && MyApplication.IdsBelowCounter(next)
      && form.itemId < next.nextID
  {
  }

  // ---------------------------------------------------------------------------
  // Number fields

  function IsDigitChar(c: char): bool { Text.IsDigit(c) }

  /** The digits of `s`, in order. */
  function KeepDigits(s: string): (r: string)
    ensures Decimal.AllDigits(r)
    ensures |r| <= |s|
  {
    var r := Sequences.Filter(s, IsDigitChar);
    Sequences.FilterMembers(s, IsDigitChar);
    assert forall i :: 0 <= i < |r| ==> r[i] in r;
    r
  }

  /** `digitsOnlyLimit`: the first `maxLen` digits of the input. */
  function DigitsOnlyLimit(s: string, maxLen: nat): (r: string)
    ensures Decimal.AllDigits(r)
    ensures r <= KeepDigits(s)
    ensures |r| == if |KeepDigits(s)| <= maxLen then |KeepDigits(s)| else maxLen
  {
    var d := KeepDigits(s);
    if |d| <= maxLen then d else d[..maxLen]
  }

  /** Text that is already at most `maxLen` digits passes through unchanged, so the filter is idempotent. */
  lemma DigitsOnlyLimitKeepsDigits(s: string, maxLen: nat)
    requires Decimal.AllDigits(s) && |s| <= maxLen
    ensures DigitsOnlyLimit(s, maxLen) == s
    ensures DigitsOnlyLimit(DigitsOnlyLimit(s, maxLen), maxLen) == DigitsOnlyLimit(s, maxLen)
  {
    forall c | c in s ensures IsDigitChar(c) { }
    Sequences.FilterAll(s, IsDigitChar);
  }

  /** Characters other than digits never reach the field: dropping them first changes nothing. */
  lemma DigitsOnlyLimitIgnoresOthers(a: string, c: char, b: string, maxLen: nat)
    requires !Text.IsDigit(c)
    ensures DigitsOnlyLimit(a + [c] + b, maxLen) == DigitsOnlyLimit(a + b, maxLen)
  {
    var fa := Sequences.Filter(a, IsDigitChar);
    var fb := Sequences.Filter(b, IsDigitChar);
    assert Sequences.Filter(a + [c], IsDigitChar) == fa by {
      Sequences.FilterAppend(a, [c], IsDigitChar);
      Sequences.FilterSingle(c, IsDigitChar);
      assert fa + [] == fa;
    }
    assert KeepDigits(a + [c] + b) == fa + fb by {
      Sequences.FilterAppend(a + [c], b, IsDigitChar);
    }
    assert KeepDigits(a + b) == fa + fb by {
      Sequences.FilterAppend(a, b, IsDigitChar);
    }
  }

  // ---------------------------------------------------------------------------
  // Profanity check

  /** The word list: still loading, or loaded (empty when the download failed). */
  datatype WordList = NotLoaded | Loaded(words: set<string>)

  /** `[^a-z0-9\s]` does not match `c`. */
  predicate Kept(c: char) {
    'a' <= c <= 'z' || Text.IsDigit(c) || Text.IsRegexSpace(c)
  }

  /** `replace(Regex("[^a-z0-9\\s]"), " ")`. */
  function Mask(s: string): (r: string)
    ensures |r| == |s|
    ensures forall i :: 0 <= i < |s| ==> r[i] == if Kept(s[i]) then s[i] else ' '
  {
    if s == [] then [] else [if Kept(s[0]) then s[0] else ' '] + Mask(s[1..])
  }

  /** A character of normalised text: a lower-case letter, a digit or a plain space. */
  predicate NormalChar(c: char) {
    'a' <= c <= 'z' || Text.IsDigit(c) || c == ' '
  }

  /** Lower-case letters, digits and single spaces, with no space at either end. */
  predicate Normal(s: string) {
    && (forall i :: 0 <= i < |s| ==> NormalChar(s[i]))
    && (s == [] || (s[0] != ' ' && s[|s| - 1] != ' '))
    && (forall i :: 0 <= i < |s| - 1 ==> !(s[i] == ' ' && s[i + 1] == ' '))
  }

  /** The text the check works on: lower-cased, other characters blanked, spaces collapsed, trimmed. */
  function Normalize(text: string): (r: string)
    ensures Normal(r)
  {
    var m := Mask(Text.Lower(text));
    var c := PackDetection.CollapseSpaces(m);
    CollapsedNormal(m);
    var r := Text.Trim(c);
    TrimmedNormal(c, r);
    r
  }

  /** After masking and collapsing, every character is normal and no two spaces touch. */
  lemma CollapsedNormal(m: string)
    requires forall i :: 0 <= i < |m| ==> Kept(m[i])
    ensures forall i :: 0 <= i < |PackDetection.CollapseSpaces(m)| ==> NormalChar(PackDetection.CollapseSpaces(m)[i])
    ensures forall i :: 0 <= i < |PackDetection.CollapseSpaces(m)| - 1 ==>
      !(PackDetection.CollapseSpaces(m)[i] == ' ' && PackDetection.CollapseSpaces(m)[i + 1] == ' ')
  {
    var c := PackDetection.CollapseSpaces(m);
    assert PackDetection.SingleSpaced(c);
    forall i | 0 <= i < |c| ensures NormalChar(c[i]) {
      if !Text.IsRegexSpace(c[i]) {
        PackDetection.CollapseKeepsText(m);
        CollapsedCharFromInput(m, c, i);
      }
    }
    forall i | 0 <= i < |c| - 1 ensures !(c[i] == ' ' && c[i + 1] == ' ') {
      assert !(Text.IsRegexSpace(c[i]) && Text.IsRegexSpace(c[i + 1]));
    }
  }

  lemma CollapsedCharFromInput(m: string, c: string, i: int)
    requires Sequences.Filter(c, PackDetection.NotSpace) == Sequences.Filter(m, PackDetection.NotSpace)
    requires 0 <= i < |c| && !Text.IsRegexSpace(c[i])
    ensures c[i] in m
  {
    Sequences.FilterMembers(c, PackDetection.NotSpace);
    Sequences.FilterMembers(m, PackDetection.NotSpace);
    assert PackDetection.NotSpace(c[i]);
    assert c[i] in Sequences.Filter(c, PackDetection.NotSpace);
  }

  lemma TrimmedNormal(c: string, r: string)
    requires forall i :: 0 <= i < |c| ==> NormalChar(c[i])
    requires forall i :: 0 <= i < |c| - 1 ==> !(c[i] == ' ' && c[i + 1] == ' ')
    requires r == Text.Trim(c)
    ensures Normal(r)
  {
    var j := Text.TrimOffset(c);
    forall i | 0 <= i < |r| ensures NormalChar(r[i]) {
      assert r[i] == c[j + i];
    }
    forall i | 0 <= i < |r| - 1 ensures !(r[i] == ' ' && r[i + 1] == ' ') {
      assert r[i] == c[j + i] && r[i + 1] == c[j + i + 1];
    }
    assert r == [] || (r[0] != ' ' && r[|r| - 1] != ' ') by {
      assert Text.IsWhitespace(' ');
    }
  }

  /** Case does not matter to the normalised text. */
  lemma NormalizeIgnoresCase(text: string)
    ensures Normalize(Text.Lower(text)) == Normalize(text)
  {
    Text.LowerIdempotent(text);
  }

  /** A word of lower-case letters and digits is its own normal form. */
  lemma NormalizeWord(w: string)
    requires forall i :: 0 <= i < |w| ==> 'a' <= w[i] <= 'z' || Text.IsDigit(w[i])
    ensures Normalize(w) == w
  {
    assert Text.Lower(w) == w;
    assert Mask(w) == w;
    CollapseWithoutSpaces(w);
    Text.TrimUnchanged(w);
  }

  lemma {:induction false} CollapseWithoutSpaces(s: string)
    requires forall i :: 0 <= i < |s| ==> !Text.IsRegexSpace(s[i])
    ensures PackDetection.CollapseSpaces(s) == s
    decreases |s|
  {
    if s != [] {
      CollapseWithoutSpaces(s[1..]);
    }
  }

  /**
    The l33t substitutions 0→o, 1→i, 3→e, 4→a, 5→s, 7→t, @→a, $→s.  Applied
    one after another as in the source they amount to this one mapping,
    since no substitution produces a character a later one replaces.
   */
  function LeetChar(c: char): (r: char)
    ensures r == ' ' <==> c == ' '
  {
    match c
    case '0' => 'o'
    case '1' => 'i'
    case '3' => 'e'
    case '4' => 'a'
    case '5' => 's'
    case '7' => 't'
    case '@' => 'a'
    case '$' => 's'
    case _ => c
  }

  function Leet(s: string): (r: string)
    ensures |r| == |s|
    ensures forall i :: 0 <= i < |s| ==> r[i] == LeetChar(s[i])
  {
    if s == [] then [] else [LeetChar(s[0])] + Leet(s[1..])
  }

  function LeetEach(words: seq<string>): (r: seq<string>)
    ensures |r| == |words|
    ensures forall i :: 0 <= i < |words| ==> r[i] == Leet(words[i])
  {
    if words == [] then [] else [Leet(words[0])] + LeetEach(words[1..])
  }

  /** Splitting the substituted text gives the substituted words. */
  lemma {:induction false} SplitLeet(s: string)
    ensures Text.Split(Leet(s), ' ') == LeetEach(Text.Split(s, ' '))
  {
    if s != [] {
      SplitLeet(s[1..]);
      assert Leet(s) == [LeetChar(s[0])] + Leet(s[1..]);
      assert Leet(s)[1..] == Leet(s[1..]);
      var rest := Text.Split(s[1..], ' ');
      if s[0] != ' ' {
        assert Leet([s[0]] + rest[0]) == [LeetChar(s[0])] + Leet(rest[0]);
      }
    }
  }

  /** A substituted word is listed exactly when some word's substitution is. */
  lemma LeetWordsListed(n: string, ws: set<string>)
    ensures (exists w :: w in Text.Split(Leet(n), ' ') && w in ws)
        <==> (exists w :: w in Text.Split(n, ' ') && Leet(w) in ws)
  {
    var words := Text.Split(n, ' ');
    var leetWords := Text.Split(Leet(n), ' ');
    SplitLeet(n);
    if x :| x in leetWords && x in ws {
      var i :| 0 <= i < |leetWords| && leetWords[i] == x;
      assert words[i] in words && Leet(words[i]) in ws;
    }
    if w :| w in words && Leet(w) in ws {
      var i :| 0 <= i < |words| && words[i] == w;
      assert leetWords[i] in leetWords;
    }
  }

  /** A word that hides a listed word longer than 3 that makes up more than half of it. */
  predicate Embedded(w: string, words: set<string>) {
    |w| > 3 && exists p :: p in words && |p| > 3 && Text.Contains(w, p) && 2 * |p| > |w|
  }

  /** The words of the normalised text. */
  function Words(text: string): seq<string> {
    Text.Split(Normalize(text), ' ')
  }

  /**
    `containsProfanity`: blocks everything until the list is loaded,
    allows everything when it is empty, and otherwise looks for a word of
    the list among the words, among the words after l33t substitution, and
    hidden inside long words.
   */
  function ContainsProfanity(text: string, list: WordList): (r: bool)
    ensures list.NotLoaded? ==> r
    ensures list.Loaded? && list.words == {} ==> !r
    ensures list.Loaded? && list.words != {} ==>
      (r <==> exists w :: w in Words(text) && (w in list.words || Leet(w) in list.words || Embedded(w, list.words)))
  {
    match list
    case NotLoaded => true
    case Loaded(ws) =>
      if ws == {} then false
      else
        var normalized := Normalize(text);
        var words := Text.Split(normalized, ' ');
        var leetWords := Text.Split(Leet(normalized), ' ');
        LeetWordsListed(normalized, ws);
        (exists w :: w in words && w in ws)
        || (exists w :: w in leetWords && w in ws)
        || (exists w :: w in words && Embedded(w, ws))
  }

  /** A listed word typed on its own, in any mix of cases, is caught. */
  lemma ListedWordIsCaught(text: string, words: set<string>)
    requires Text.Lower(text) in words
    requires forall i :: 0 <= i < |text| ==> Text.IsLetter(text[i]) || Text.IsDigit(text[i])
    ensures ContainsProfanity(text, Loaded(words))
  {
    WordsOfWord(text);
    assert Text.Lower(text) in Words(text);
  }

  /** A word of letters and digits normalises to itself, lower-cased. */
  lemma WordsOfWord(text: string)
    requires forall i :: 0 <= i < |text| ==> Text.IsLetter(text[i]) || Text.IsDigit(text[i])
    ensures Words(text) == [Text.Lower(text)]
  {
    NormalizeLetterWord(text);
    LowerWordChars(text);
    SplitWithoutSeparator(Text.Lower(text), ' ');
  }

  lemma LowerWordChars(text: string)
    requires forall i :: 0 <= i < |text| ==> Text.IsLetter(text[i]) || Text.IsDigit(text[i])
    ensures forall i :: 0 <= i < |Text.Lower(text)| ==> 'a' <= Text.Lower(text)[i] <= 'z' || Text.IsDigit(Text.Lower(text)[i])
    ensures forall i :: 0 <= i < |Text.Lower(text)| ==> Text.Lower(text)[i] != ' '
  {
    var w := Text.Lower(text);
    forall i | 0 <= i < |w| ensures 'a' <= w[i] <= 'z' || Text.IsDigit(w[i]) {
      assert w[i] == Text.LowerChar(text[i]);
    }
  }

  lemma NormalizeLetterWord(text: string)
    requires forall i :: 0 <= i < |text| ==> Text.IsLetter(text[i]) || Text.IsDigit(text[i])
    ensures Normalize(text) == Text.Lower(text)
  {
    LowerWordChars(text);
    NormalizeWord(Text.Lower(text));
    NormalizeIgnoresCase(text);
  }

  lemma {:induction false} SplitWithoutSeparator(s: string, sep: char)
    requires forall i :: 0 <= i < |s| ==> s[i] != sep
    ensures Text.Split(s, sep) == [s]
  {
    if s != [] {
      SplitWithoutSeparator(s[1..], sep);
      assert [s[0]] + s[1..] == s;
    }
  }

  // ---------------------------------------------------------------------------
  // Product-name checks before sharing

  const NameTooShort: string := "Product name too short"
  const NameTooLong: string := "Product name too long"
  const NameNeedsLetters: string := "Product name must contain at least two letters"
  const NameRepetitive: string := "Product name contains too many repeated characters"
  const NameInappropriate: string := "Product name contains inappropriate language"

  function LetterCount(s: string): (n: nat)
    ensures n <= |s|
  {
    if s == [] then 0 else (if Text.IsLetter(s[0]) then 1 else 0) + LetterCount(s[1..])
  }

  /** The characters the regex `.` does not match. */
  predicate IsLineTerminator(c: char) {
    c == '\n' || c == '\r' || c == '\U{0085}' || c == '\U{2028}' || c == '\U{2029}'
  }

  /** `(.)\1{4,}` matches at `i`: five equal characters, none a line terminator. */
  predicate RunAt(s: string, i: int)
    requires 0 <= i && i + 5 <= |s|
  {
    !IsLineTerminator(s[i]) && s[i + 1] == s[i] && s[i + 2] == s[i] && s[i + 3] == s[i] && s[i + 4] == s[i]
  }

  /** `Regex("(.)\\1{4,}").containsMatchIn(s)`. */
  predicate HasRepeatRun(s: string) {
    exists i :: 0 <= i && i + 5 <= |s| && RunAt(s, i)
  }

  /** A run found in a piece is found in any text containing the piece. */
  lemma RepeatRunInContext(a: string, s: string, b: string)
    requires HasRepeatRun(s)
    ensures HasRepeatRun(a + s + b)
  {
    var i :| 0 <= i && i + 5 <= |s| && RunAt(s, i);
    var t := a + s + b;
    assert forall k :: 0 <= k < |s| ==> t[|a| + k] == s[k];
    assert RunAt(t, |a| + i);
  }

  /**
    A text of one repeated character holds a run exactly when it is at least
    five long and the character is not a line terminator.
   */
  lemma RepeatedCharacterRun(c: char, n: nat)
    ensures HasRepeatRun(seq(n, _ => c)) <==> n >= 5 && !IsLineTerminator(c)
  {
    var s := seq(n, _ => c);
    if n >= 5 && !IsLineTerminator(c) {
      assert RunAt(s, 0);
    }
  }

  /** `String.length`: the number of UTF-16 code units, so a character outside the BMP counts twice. */
  function Utf16Length(s: string): (n: nat)
    ensures n >= |s|
  {
    |JavaHash.Utf16(s)|
  }

  /** Without characters outside the BMP the UTF-16 length is the character count; one such character adds one unit. */
  lemma {:induction false} Utf16LengthCounts(s: string, c: char)
    ensures Utf16Length(s + [c]) == Utf16Length(s) + (if c as int < 0x1_0000 then 1 else 2)
    ensures (forall i :: 0 <= i < |s| ==> s[i] as int < 0x1_0000) ==> Utf16Length(s) == |s|
  {
    assert (s + [c])[..|s|] == s;
    if s != [] {
      var init := s[..|s| - 1];
      Utf16LengthCounts(init, s[|s| - 1]);
      assert init + [s[|s| - 1]] == s;
    }
  }

  /**
    `validateProductNameForSharing`: the message of the first check that
    fails (length at least 2, at most 200, both in UTF-16 units; two
    letters; no run of five equal characters; no profanity), or `None`
    when all pass.
   */
  function ValidateProductName(name: string, list: WordList): (r: Option<string>)
    ensures r.None? <==>
      2 <= Utf16Length(name) <= 200 && LetterCount(name) >= 2 && !HasRepeatRun(name) && !ContainsProfanity(name, list)
    ensures r == Some(NameTooShort) <==> Utf16Length(name) < 2
    ensures r == Some(NameTooLong) <==> 200 < Utf16Length(name)
    ensures r == Some(NameNeedsLetters) <==> 2 <= Utf16Length(name) <= 200 && LetterCount(name) < 2
    ensures r == Some(NameRepetitive) <==> 2 <= Utf16Length(name) <= 200 && LetterCount(name) >= 2 && HasRepeatRun(name)
    ensures r == Some(NameInappropriate) <==>
      2 <= Utf16Length(name) <= 200 && LetterCount(name) >= 2 && !HasRepeatRun(name) && ContainsProfanity(name, list)
  {
    var length := Utf16Length(name);
    if length < 2 then Some(NameTooShort)
    else if length > 200 then Some(NameTooLong)
    else if LetterCount(name) < 2 then Some(NameNeedsLetters)
    else if HasRepeatRun(name) then Some(NameRepetitive)
    else if ContainsProfanity(name, list) then Some(NameInappropriate)
    else None
  }

  /** Until the word list has loaded, no name can be shared. */
  lemma NothingSharedBeforeListLoads(name: string)
    ensures ValidateProductName(name, NotLoaded).Some?
  {
  }

  // ---------------------------------------------------------------------------
  // Saving

  const NameMissing: string := "Please enter a name!"
  const DateMissing: string := "Check that date again?"
  const ImpossibleMonth: string := " \U{1F440} Check that date again?\n\nYou entered an impossible month (must be 1-12)."
  const ImpossibleDay: string := " \U{1F440} Check that date again?\n\nYou entered an impossible day (must be 1-31)."
  const BadQuantity: string := "Please enter a valid quantity!"
  const BadNotice: string := "Days notice must be a number!"
  const DefaultNotice: string := "60"

  /**
    The date a save uses.  With perishables on, a missing date is an error
    and so is a month outside 1..12 or a day outside 1..31; with them off, a
    missing date or one outside those ranges or the years 2000..2100 is
    replaced by today.
   */
  function CheckedDate(expDate: Option<Date>, perishable: bool, today: Date): (r: Result<Date>)
    ensures perishable && expDate.None? ==> r == Err(DateMissing)
    ensures !perishable ==> r.Ok?
    ensures r.Ok? ==> r.value == today || expDate == Some(r.value)
    ensures r.Err? ==> r.message in {DateMissing, ImpossibleMonth, ImpossibleDay}
  {
    match expDate
    case None => if perishable then Err(DateMissing) else Ok(today)
    case Some(date) =>
      var c := ToCivil(date);
      if perishable then
        if !(1 <= c.month <= 12) then Err(ImpossibleMonth)
        else if !(1 <= c.day <= 31) then Err(ImpossibleDay)
        else Ok(date)
      else if 1 <= c.month <= 12 && 1 <= c.day <= 31 && 2000 <= c.year <= 2100 then Ok(date)
      else Ok(today)
  }

  /**
    A date is always a real calendar date, so with perishables on a
    present date is always accepted: the month and day messages can never
    be shown.  With perishables off, only the year range can replace it.
   */
  lemma PresentDateAccepted(date: Date, today: Date)
    ensures CheckedDate(Some(date), true, today) == Ok(date)
    ensures CheckedDate(Some(date), false, today) == Ok(if 2000 <= ToCivil(date).year <= 2100 then date else today)
  {
    var c := ToCivil(date);
    assert DaysInMonth(c.year, c.month) <= 31;
  }

  /** The notice text after the blank-to-"60" default that applies with perishables on. */
  function NoticeText(daysNoticeStr: string, perishable: bool): (r: string)
    ensures !Text.IsBlank(r) || r == daysNoticeStr
    ensures r != daysNoticeStr ==> r == DefaultNotice && perishable
  {
    if perishable && Text.IsBlank(daysNoticeStr) then
      assert !Text.IsWhitespace(DefaultNotice[0]);
      DefaultNotice
    else daysNoticeStr
  }

  /** The quantity field holds a whole number above zero. */
  predicate QuantityOk(quantityStr: string) {
    Decimal.Parse(quantityStr).Some? && Decimal.Parse(quantityStr).value > 0
  }

  /** The outcome of a save: the first validation message, or the updated form and repository and the item built. */
  datatype SaveOutcome = Rejected(message: string) | Saved(form: Form, repo: InventoryRepository.Repo, item: InventoryItem)

  /** A new item is the same stock as an existing one: name and code equal ignoring case, same date. */
  predicate IsDuplicate(existing: InventoryItem, item: InventoryItem) {
    Text.EqualsIgnoreCase(existing.name, item.name) && Text.EqualsIgnoreCase(existing.code, item.code)
    && existing.expDate == item.expDate
  }

  function DuplicateOf(item: InventoryItem): InventoryItem -> bool {
    (existing: InventoryItem) => IsDuplicate(existing, item)
  }

  /** Kotlin `Int` addition, which wraps around. */
  function AddInt(a: int, b: int): (r: int)
    ensures Decimal.InInt32(a + b) ==> r == a + b
  {
    JavaHash.Wrap32(a + b)
  }

  /**
    Where the built item goes: a new item merges into the first duplicate
    (adding its quantity) or is added; an edited item replaces the one with
    its id.
   */
  function Store(repo: InventoryRepository.Repo, isNewItem: bool, item: InventoryItem): InventoryRepository.Repo {
    if isNewItem then
      var k := Sequences.FirstIndex(repo.app.items, DuplicateOf(item));
      if k >= 0 then
        var dup := repo.app.items[k];
        InventoryRepository.UpdateItem(repo, dup.(quantity := AddInt(dup.quantity, item.quantity)))
      else InventoryRepository.AddItem(repo, item)
    else InventoryRepository.UpdateItem(repo, item)
  }

  /**
    `saveItem`: checks the name, then the date, then the quantity, then
    the notice, and reports the first failure without touching anything;
    otherwise builds the item from the trimmed fields and stores it.
   */
  function SaveItem(form: Form, repo: InventoryRepository.Repo, today: Date): (r: SaveOutcome)
    ensures Text.IsBlank(form.name) ==> r == Rejected(NameMissing)
    ensures !Text.IsBlank(form.name) && CheckedDate(form.expDate, repo.app.perishable, today).Err? ==>
      r == Rejected(CheckedDate(form.expDate, repo.app.perishable, today).message)
    ensures (!Text.IsBlank(form.name) && CheckedDate(form.expDate, repo.app.perishable, today).Ok?
             && !QuantityOk(form.quantityStr)) ==> r == Rejected(BadQuantity)
    ensures r.Saved? <==>
      && !Text.IsBlank(form.name)
      && CheckedDate(form.expDate, repo.app.perishable, today).Ok?
      && QuantityOk(form.quantityStr)
      && Decimal.Parse(NoticeText(form.daysNoticeStr, repo.app.perishable)).Some?
    ensures r.Saved? ==>
      && r.item == InventoryItem(form.itemId, Text.Trim(form.name), Text.Trim(form.code),
                                 CheckedDate(form.expDate, repo.app.perishable, today).value,
                                 Decimal.Parse(form.quantityStr).value,
                                 Decimal.Parse(NoticeText(form.daysNoticeStr, repo.app.perishable)).value)
      && r.form == form.(daysNoticeStr := NoticeText(form.daysNoticeStr, repo.app.perishable))
      && r.repo == Store(repo, form.isNewItem, r.item)
  {
    if Text.IsBlank(form.name) then Rejected(NameMissing)
    else
      var perishable := repo.app.perishable;
      match CheckedDate(form.expDate, perishable, today)
      case Err(message) => Rejected(message)
      case Ok(date) =>
        var quantity := Decimal.Parse(form.quantityStr);
        if quantity.None? || quantity.value <= 0 then Rejected(BadQuantity)
        else
          var noticeStr := NoticeText(form.daysNoticeStr, perishable);
          match Decimal.Parse(noticeStr)
          case None => Rejected(BadNotice)
          case Some(daysNotice) =>
            var item := InventoryItem(form.itemId, Text.Trim(form.name), Text.Trim(form.code), date, quantity.value, daysNotice);
            Saved(form.(daysNoticeStr := noticeStr), Store(repo, form.isNewItem, item), item)
  }

  /** Every rejection carries one of the six messages, and only the notice check can follow a valid quantity. */
  lemma SaveItemMessages(form: Form, repo: InventoryRepository.Repo, today: Date)
    ensures var r := SaveItem(form, repo, today);
      r.Rejected? ==> r.message in {NameMissing, DateMissing, ImpossibleMonth, ImpossibleDay, BadQuantity, BadNotice}
    ensures var r := SaveItem(form, repo, today);
      r.Rejected? && r.message == BadNotice ==> !repo.app.perishable || !Text.IsBlank(form.daysNoticeStr)
  {
    var n := NoticeText(form.daysNoticeStr, repo.app.perishable);
    if repo.app.perishable && Text.IsBlank(form.daysNoticeStr) {
      assert n == DefaultNotice;
      Decimal.ParseShow(60);
      assert Decimal.Show(60) == DefaultNotice by { assert Decimal.Digits(60) == "60"; }
    }
  }

  /** The sum of the quantities of a list. */
  function TotalQuantity(items: seq<InventoryItem>): int {
    if items == [] then 0 else items[0].quantity + TotalQuantity(items[1..])
  }

  lemma {:induction false} TotalAppend(items: seq<InventoryItem>, x: InventoryItem)
    ensures TotalQuantity(items + [x]) == TotalQuantity(items) + x.quantity
  {
    if items != [] {
      assert (items + [x])[1..] == items[1..] + [x];
      TotalAppend(items[1..], x);
    }
  }

  lemma {:induction false} TotalUpdate(items: seq<InventoryItem>, k: int, x: InventoryItem)
    requires 0 <= k < |items|
    ensures TotalQuantity(items[k := x]) == TotalQuantity(items) - items[k].quantity + x.quantity
  {
    if k > 0 {
      assert items[k := x][1..] == items[1..][k - 1 := x];
      TotalUpdate(items[1..], k - 1, x);
    } else {
      assert items[k := x][1..] == items[1..];
    }
  }

  /** No two items are duplicates of each other. */
  ghost predicate NoDuplicates(items: seq<InventoryItem>) {
    forall i, j :: 0 <= i < j < |items| ==> !IsDuplicate(items[i], items[j])
  }

  /** With ids unique, the item `updateItem` replaces is the one at the first duplicate. */
  lemma MergeReplacesDuplicate(repo: InventoryRepository.Repo, item: InventoryItem)
    requires InventoryRepository.UniqueIds(repo.app.items)
    requires Sequences.FirstIndex(repo.app.items, DuplicateOf(item)) >= 0
    ensures var items := repo.app.items;
      var k := Sequences.FirstIndex(items, DuplicateOf(item));
      Store(repo, true, item).app.items == items[k := items[k].(quantity := AddInt(items[k].quantity, item.quantity))]
  {
    var items := repo.app.items;
    var k := Sequences.FirstIndex(items, DuplicateOf(item));
    var merged := items[k].(quantity := AddInt(items[k].quantity, item.quantity));
    var u := Sequences.FirstIndex(items, MyApplication.HasId(merged.id));
    assert MyApplication.HasId(merged.id)(items[k]);
    assert u == k;
  }

  /**
    Saving a new item adds its quantity to the list's total, whether it
    merges into a duplicate or is appended (as long as the merged quantity
    fits an `Int`).
   */
  lemma StoreNewAddsQuantity(repo: InventoryRepository.Repo, item: InventoryItem)
    requires InventoryRepository.UniqueIds(repo.app.items)
    requires !InventoryRepository.HasItemId(repo.app.items, item.id)
    requires forall i :: 0 <= i < |repo.app.items| ==> Decimal.InInt32(repo.app.items[i].quantity + item.quantity)
    ensures TotalQuantity(Store(repo, true, item).app.items) == TotalQuantity(repo.app.items) + item.quantity
    ensures |Store(repo, true, item).app.items| ==
      if Sequences.FirstIndex(repo.app.items, DuplicateOf(item)) >= 0 then |repo.app.items| else |repo.app.items| + 1
  {
    var items := repo.app.items;
    var k := Sequences.FirstIndex(items, DuplicateOf(item));
    if k >= 0 {
      MergeReplacesDuplicate(repo, item);
      TotalUpdate(items, k, items[k].(quantity := AddInt(items[k].quantity, item.quantity)));
    } else {
      TotalAppend(items, item);
    }
  }

  /** Saving new items never creates two items that are duplicates, nor two items with the same id. */
  lemma StoreNewKeepsDistinct(repo: InventoryRepository.Repo, item: InventoryItem)
    requires InventoryRepository.UniqueIds(repo.app.items) && NoDuplicates(repo.app.items)
    requires !InventoryRepository.HasItemId(repo.app.items, item.id)
    ensures NoDuplicates(Store(repo, true, item).app.items)
    ensures InventoryRepository.UniqueIds(Store(repo, true, item).app.items)
  {
    if Sequences.FirstIndex(repo.app.items, DuplicateOf(item)) >= 0 {
      MergeKeepsDistinct(repo, item);
    } else {
      AppendKeepsDistinct(repo, item);
    }
  }

  lemma MergeKeepsDistinct(repo: InventoryRepository.Repo, item: InventoryItem)
    requires InventoryRepository.UniqueIds(repo.app.items) && NoDuplicates(repo.app.items)
    requires Sequences.FirstIndex(repo.app.items, DuplicateOf(item)) >= 0
    ensures NoDuplicates(Store(repo, true, item).app.items)
    ensures InventoryRepository.UniqueIds(Store(repo, true, item).app.items)
  {
    var items := repo.app.items;
    var k := Sequences.FirstIndex(items, DuplicateOf(item));
    var r := items[k := items[k].(quantity := AddInt(items[k].quantity, item.quantity))];
    assert Store(repo, true, item).app.items == r by {
      MergeReplacesDuplicate(repo, item);
    }
    assert forall i :: 0 <= i < |items| ==> SameIdentity(r[i], items[i]);
    SameIdentitiesKeepDistinct(items, r);
  }

  /** Two items that agree on id, name, code and expiry date. */
  predicate SameIdentity(a: InventoryItem, b: InventoryItem) {
    a.id == b.id && a.name == b.name && a.code == b.code && a.expDate == b.expDate
  }

  /** Changing only other fields keeps items distinct. */
  lemma SameIdentitiesKeepDistinct(items: seq<InventoryItem>, r: seq<InventoryItem>)
    requires |r| == |items| && forall i :: 0 <= i < |items| ==> SameIdentity(r[i], items[i])
    requires InventoryRepository.UniqueIds(items) && NoDuplicates(items)
    ensures InventoryRepository.UniqueIds(r) && NoDuplicates(r)
  {
  }

  lemma AppendKeepsDistinct(repo: InventoryRepository.Repo, item: InventoryItem)
    requires InventoryRepository.UniqueIds(repo.app.items) && NoDuplicates(repo.app.items)
    requires !InventoryRepository.HasItemId(repo.app.items, item.id)
    requires Sequences.FirstIndex(repo.app.items, DuplicateOf(item)) < 0
    ensures NoDuplicates(Store(repo, true, item).app.items)
    ensures InventoryRepository.UniqueIds(Store(repo, true, item).app.items)
  {
    var items := repo.app.items;
    var r := items + [item];
    assert Store(repo, true, item).app.items == r;
    InventoryRepository.AddItemKeepsIdsUnique(repo, item);
    forall i, j | 0 <= i < j < |r| ensures !IsDuplicate(r[i], r[j]) {
      if j == |items| {
        assert !DuplicateOf(item)(items[i]);
      } else {
        assert r[i] == items[i] && r[j] == items[j];
      }
    }
  }

  /** Opening an item and saving it without edits leaves the list as it was. */
  lemma EditWithoutChangesKeepsList(app: MyApplication.App, file: InventoryRepository.FileContent, item: InventoryItem, today: Date)
    requires item.id != NoItem && app.perishable
    requires MyApplication.GetInventoryItemById(app, item.id) == Some(item)
    requires !Text.IsBlank(item.name) && Text.Trimmed(item.name) && Text.Trimmed(item.code)
    requires 0 < item.quantity && Decimal.InInt32(item.quantity) && Decimal.InInt32(item.daysNotice)
    ensures var r := SaveItem(Init(app, item.id, today).0, InventoryRepository.Repo(app, file), today);
      r.Saved? && r.item == item && r.repo.app.items == app.items
  {
    LoadedFormSavesItem(app, file, item, today);
    UpdateWithItself(InventoryRepository.Repo(app, file), item);
  }

  /** The form filled from an item builds that same item again on save. */
  lemma LoadedFormSavesItem(app: MyApplication.App, file: InventoryRepository.FileContent, item: InventoryItem, today: Date)
    requires item.id != NoItem && app.perishable
    requires MyApplication.GetInventoryItemById(app, item.id) == Some(item)
    requires !Text.IsBlank(item.name) && Text.Trimmed(item.name) && Text.Trimmed(item.code)
    requires 0 < item.quantity && Decimal.InInt32(item.quantity) && Decimal.InInt32(item.daysNotice)
    ensures var r := SaveItem(Init(app, item.id, today).0, InventoryRepository.Repo(app, file), today);
      r.Saved? && r.item == item && r.repo == InventoryRepository.UpdateItem(InventoryRepository.Repo(app, file), item)
  {
    assert Text.Trim(item.name) == item.name && Text.Trim(item.code) == item.code by {
      Text.TrimUnchanged(item.name);
      Text.TrimUnchanged(item.code);
    }
    var form := Init(app, item.id, today).0;
    LoadedFormPasses(app, item, today);
    var r := SaveItem(form, InventoryRepository.Repo(app, file), today);
    assert r.Saved?;
    assert r.item == item;
  }

  /** Every check passes on a form filled from a well-formed item. */
  lemma LoadedFormPasses(app: MyApplication.App, item: InventoryItem, today: Date)
    requires item.id != NoItem
    requires MyApplication.GetInventoryItemById(app, item.id) == Some(item)
    requires 0 < item.quantity && Decimal.InInt32(item.quantity) && Decimal.InInt32(item.daysNotice)
    ensures var form := Init(app, item.id, today).0;
      && form == Form(false, item.id, item.name, item.code, Decimal.Show(item.quantity),
                      Decimal.Show(item.daysNotice), Some(item.expDate))
      && CheckedDate(form.expDate, true, today) == Ok(item.expDate)
      && Decimal.Parse(form.quantityStr) == Some(item.quantity) && QuantityOk(form.quantityStr)
      && Decimal.Parse(NoticeText(form.daysNoticeStr, true)) == Some(item.daysNotice)
      && NoticeText(form.daysNoticeStr, true) == form.daysNoticeStr
  {
    PresentDateAccepted(item.expDate, today);
    Decimal.ParseShow(item.quantity);
    Decimal.ParseShow(item.daysNotice);
    ShownNumberNotBlank(item.daysNotice);
  }

  /** Replacing the item an id finds by itself changes nothing. */
  lemma UpdateWithItself(repo: InventoryRepository.Repo, item: InventoryItem)
    requires MyApplication.GetInventoryItemById(repo.app, item.id) == Some(item)
    ensures InventoryRepository.UpdateItem(repo, item).app.items == repo.app.items
  {
    var items := repo.app.items;
    var k :| 0 <= k < |items| && items[k] == item && item.id == item.id
             && forall j :: 0 <= j < k ==> items[j].id != item.id;
    var u := Sequences.FirstIndex(items, MyApplication.HasId(item.id));
    assert MyApplication.HasId(item.id)(items[k]);
    assert u == k;
    assert items[k := item] == items;
  }

  lemma ShownNumberNotBlank(n: int)
    ensures !Text.IsBlank(Decimal.Show(n))
  {
    var s := Decimal.Show(n);
    assert s[0] == '-' || Text.IsDigit(s[0]) by { ShowStartsWithSignOrDigit(n); }
  }

  lemma ShowStartsWithSignOrDigit(n: int)
    ensures Decimal.Show(n)[0] == '-' || Text.IsDigit(Decimal.Show(n)[0])
  {
    if n >= 0 {
      assert Decimal.Show(n) == Decimal.Digits(n);
    }
  }

  /** `deleteItem`: an edited item is removed from the list by the item its id finds; a new one is not. */
  function DeleteItem(form: Form, repo: InventoryRepository.Repo): (r: InventoryRepository.Repo)
    ensures form.isNewItem ==> r == repo
    ensures MyApplication.GetInventoryItemById(repo.app, form.itemId).None? ==> r == repo
    ensures !form.isNewItem && MyApplication.GetInventoryItemById(repo.app, form.itemId).Some? ==>
      |r.app.items| == |repo.app.items| - 1
  {
    if form.isNewItem then repo
    else
      match MyApplication.GetInventoryItemById(repo.app, form.itemId)
      case None => repo
      case Some(item) =>
        assert item in repo.app.items;
        InventoryRepository.DeleteItem(repo, item)
  }

  /** With ids unique, deleting an edited item leaves every other item, in order, and none with its id. */
  lemma DeleteItemRemovesId(form: Form, repo: InventoryRepository.Repo)
    requires !form.isNewItem && InventoryRepository.UniqueIds(repo.app.items)
    ensures DeleteItem(form, repo).app.items == Sequences.Filter(repo.app.items, NotId(form.itemId))
    ensures !InventoryRepository.HasItemId(DeleteItem(form, repo).app.items, form.itemId)
  {
    var items := repo.app.items;
    DeleteItemFilters(form, repo);
    Sequences.FilterMembers(items, NotId(form.itemId));
    var r := DeleteItem(form, repo).app.items;
    forall i | 0 <= i < |r| ensures r[i].id != form.itemId {
      assert r[i] in Sequences.Filter(items, NotId(form.itemId));
    }
  }

  lemma DeleteItemFilters(form: Form, repo: InventoryRepository.Repo)
    requires !form.isNewItem && InventoryRepository.UniqueIds(repo.app.items)
    ensures DeleteItem(form, repo).app.items == Sequences.Filter(repo.app.items, NotId(form.itemId))
  {
    var items := repo.app.items;
    var g := MyApplication.GetInventoryItemById(repo.app, form.itemId);
    if g.Some? {
      var item := g.value;
      InventoryRepository.DeleteItemRemovesFirst(repo, item);
      var k :| 0 <= k < |items| && items[k] == item && item !in items[..k]
               && DeleteItem(form, repo).app.items == items[..k] + items[k + 1..];
      FilterAroundId(items, k, form.itemId);
    } else {
      Sequences.FilterAll(items, NotId(form.itemId));
    }
  }

  /** In a list with unique ids, dropping the items with the id at `k` drops exactly position `k`. */
  lemma FilterAroundId(items: seq<InventoryItem>, k: int, id: int)
    requires InventoryRepository.UniqueIds(items)
    requires 0 <= k < |items| && items[k].id == id
    ensures Sequences.Filter(items, NotId(id)) == items[..k] + items[k + 1..]
  {
    var p := NotId(id);
    var before := items[..k];
    var after := items[k + 1..];
    assert items == before + [items[k]] + after;
    forall j | 0 <= j < |before| ensures before[j].id != id {
      assert before[j] == items[j];
    }
    forall j | 0 <= j < |after| ensures after[j].id != id {
      assert after[j] == items[k + 1 + j];
    }
    KeepOtherIds(before, id);
    KeepOtherIds(after, id);
    Sequences.FilterAppend(before + [items[k]], after, p);
    Sequences.FilterAppend(before, [items[k]], p);
    Sequences.FilterSingle(items[k], p);
    assert !p(items[k]);
    assert Sequences.Filter(before + [items[k]], p) == before;
    assert Sequences.Filter(before + [items[k]] + after, p) == before + after;
  }

  lemma KeepOtherIds(part: seq<InventoryItem>, id: int)
    requires forall j :: 0 <= j < |part| ==> part[j].id != id
    ensures Sequences.Filter(part, NotId(id)) == part
  {
    forall e | e in part ensures NotId(id)(e) {
      var j :| 0 <= j < |part| && part[j] == e;
    }
    Sequences.FilterAll(part, NotId(id));
  }

  function NotId(id: int): InventoryItem -> bool {
    (e: InventoryItem) => e.id != id
  }

}
