/** The dialog that creates or edits an ignore rule: saving the form into
    the rule record, showing a rule's expiry time as days, hours and
    minutes, the carry and borrow between the expiry spin buttons, and
    filling the channel list. */
module SetupIgnoresEdit {
  import opened Common

  // ---------------------------------------------------------------------
  // The ignore record and the form
  // ---------------------------------------------------------------------

  /** The client core's ignore record, as far as the dialog writes it. */
  class Ignore {
    var mask: Option<string>
    var level: int
    var exception: bool
    var replies: bool
    var pattern: Option<string>
    var fullword: bool
    var regexp: bool
    var channels: Option<seq<string>>
    var unignoreTime: int

    /** The zero-filled record of a new rule. */
    constructor ()
      ensures mask.None? && level == 0 && !exception && !replies && pattern.None?
      ensures !fullword && !regexp && channels.None? && unignoreTime == 0
    {
      mask, level, exception, replies := None, 0, false, false;
      pattern, fullword, regexp := None, false, false;
      channels, unignoreTime := None, 0;
    }
  }

  /** What the dialog's widgets hold when OK is pressed. `levelBits` is what
      level2bits makes of the level entry, `pattern` what the pattern entry
      gives, `channels` the channel list split at spaces (None when the list
      is empty), and the three expiry spin values. */
  datatype IgnoreForm = IgnoreForm(
    mask: string,
    levelBits: int,
    exception: bool,
    replies: bool,
    pattern: Option<string>,
    fullword: bool,
    regexp: bool,
    channels: Option<seq<string>>,
    days: int,
    hours: int,
    mins: int)

  /** The mask kept for an entry text: none for an empty text or a lone "*",
      which both match everyone; the text itself otherwise. */
  function SavedMask(text: string): (m: Option<string>)
    ensures m.None? <==> text == [] || text == "*"
    ensures m.Some? ==> m.value == text
  {
    if text != [] && text != "*" then Some(text) else None
  }

  /** Saving a kept mask once more keeps it as it is. */
  lemma SavedMaskStable(text: string)
    ensures SavedMask(text).Some? ==> SavedMask(SavedMask(text).value) == SavedMask(text)
  {
  }

  /** The level kept for the parsed level bits: no bits at all means every
      level (`allLevels`, the client core's MSGLEVEL_ALL). */
  function SavedLevel(bits: int, allLevels: int): (level: int)
    ensures bits != 0 ==> level == bits
    ensures bits == 0 ==> level == allLevels
    ensures allLevels != 0 ==> level != 0
  {
    if bits == 0 then allLevels else bits
  }

  /** The expiry length the save formula gives for the three spin values. */
  function ExpirySeconds(days: int, hours: int, mins: int): int {
    days * 86400 + hours * 3600 + mins * 60
  }

  /** ignore_save. `ignore` is the rule being edited, or null for a new
      one; `now` is the current time and `allLevels` MSGLEVEL_ALL. Every
      field is overwritten from the form; the expiry time is set only for a
      positive expiry length. `created` says whether the rule goes to
      ignore_add_rec (new) or ignore_update_rec. */
  method IgnoreSave(form: IgnoreForm, ignore: Ignore?, now: int, allLevels: int)
    returns (rec: Ignore, created: bool)
    modifies if ignore != null then {ignore} else {}
    ensures created <==> ignore == null
    ensures created ==> fresh(rec)
    ensures !created ==> rec == ignore
    ensures rec.mask == SavedMask(form.mask)
    ensures rec.level == SavedLevel(form.levelBits, allLevels)
    ensures rec.exception == form.exception && rec.replies == form.replies
    ensures rec.pattern == form.pattern
    ensures rec.fullword == form.fullword && rec.regexp == form.regexp
    ensures rec.channels == form.channels
    ensures ExpirySeconds(form.days, form.hours, form.mins) > 0 ==>
              rec.unignoreTime == now + ExpirySeconds(form.days, form.hours, form.mins)
    ensures ExpirySeconds(form.days, form.hours, form.mins) <= 0 ==>
              rec.unignoreTime == if created then 0 else old(ignore.unignoreTime)
  {
    created := ignore == null;
    if created {
      rec := new Ignore();
    } else {
      rec := ignore;
    }
    WriteForm(form, rec, now, allLevels);
  }

  /** The field writes of ignore_save into the record `rec`. */
  method WriteForm(form: IgnoreForm, rec: Ignore, now: int, allLevels: int)
    modifies rec
    ensures rec.mask == SavedMask(form.mask)
    ensures rec.level == SavedLevel(form.levelBits, allLevels)
    ensures rec.exception == form.exception && rec.replies == form.replies
    ensures rec.pattern == form.pattern
    ensures rec.fullword == form.fullword && rec.regexp == form.regexp
    ensures rec.channels == form.channels
    ensures ExpirySeconds(form.days, form.hours, form.mins) > 0 ==>
              rec.unignoreTime == now + ExpirySeconds(form.days, form.hours, form.mins)
    ensures ExpirySeconds(form.days, form.hours, form.mins) <= 0 ==>
              rec.unignoreTime == old(rec.unignoreTime)
  {
    rec.mask := if form.mask != [] && form.mask != "*" then Some(form.mask) else None;
    rec.level := form.levelBits;
    if rec.level == 0 {
      rec.level := allLevels;
    }
    rec.exception := form.exception;
    rec.replies := form.replies;
    rec.pattern := form.pattern;
    rec.fullword := form.fullword;
    rec.regexp := form.regexp;
    rec.channels := form.channels;
    var secs := form.days * 86400;
    secs := secs + form.hours * 3600;
    secs := secs + form.mins * 60;
    if secs > 0 {
      rec.unignoreTime := now + secs;
    }
  }

  // ---------------------------------------------------------------------
  // Showing an expiry time
  // ---------------------------------------------------------------------

  /** C's `/` for a positive divisor: the quotient rounded toward zero. */
  function CDiv(a: int, b: int): (q: int)
    requires b > 0
    ensures a >= 0 ==> 0 <= a - b * q < b
    ensures a < 0 ==> -b < a - b * q <= 0
  {
    if a >= 0 then a / b else -((-a) / b)
  }

  /** C's `%` for a positive divisor: its sign is that of `a`. */
  function CMod(a: int, b: int): (r: int)
    requires b > 0
    ensures r == a - b * CDiv(a, b)
    ensures a >= 0 ==> 0 <= r < b
    ensures a < 0 ==> -b < r <= 0
  {
    a - b * CDiv(a, b)
  }

  /** The three spin values. */
  datatype Expiry = Expiry(days: int, hours: int, mins: int)

  function TotalSeconds(e: Expiry): int {
    ExpirySeconds(e.days, e.hours, e.mins)
  }

  /** The split ignore_dialog_show makes of the time left, `diff` seconds:
      whole days, hours within the day and minutes within the hour, each
      taken with C's division. */
  function Decompose(diff: int): Expiry {
    Expiry(CDiv(CDiv(diff, 3600), 24), CMod(CDiv(diff, 3600), 24), CMod(CDiv(diff, 60), 60))
  }

  /** What the dialog shows for a rule's expiry time: nothing for a rule
      without one (its time is 0), the split of the time left otherwise. */
  function LoadExpiry(unignoreTime: int, now: int): (shown: Option<Expiry>)
    ensures shown.None? <==> unignoreTime == 0
  {
    if unignoreTime != 0 then Some(Decompose(unignoreTime - now)) else None
  }

  /** Dividing by 60 twice is dividing by 3600, with C's division too. */
  lemma CDivTwice(a: int)
    ensures CDiv(CDiv(a, 60), 60) == CDiv(a, 3600)
  {
    var n := if a >= 0 then a else -a;
    var q1 := n / 60;
    var q2 := q1 / 60;
    assert n == 3600 * q2 + (60 * (q1 % 60) + n % 60);
    assert n / 3600 == q2;
    if a < 0 && q1 == 0 {
      assert CDiv(-q1, 60) == 0;
    }
  }

  /** Recombining the split of any time left with the save formula gives
      that time cut to whole minutes (toward zero, as C divides). */
  lemma DecomposeRecombine(diff: int)
    ensures TotalSeconds(Decompose(diff)) == 60 * CDiv(diff, 60)
  {
    var q := CDiv(diff, 60);
    var h := CDiv(diff, 3600);
    CDivTwice(diff);
    assert h == CDiv(q, 60);
    var e := Decompose(diff);
    assert 24 * e.days + e.hours == h;
    assert 60 * h + e.mins == q;
  }

  /** For a time still ahead, the split has days, hours below 24 and
      minutes below 60, and gives back the time less its odd seconds. */
  lemma DecomposeAhead(diff: int)
    requires diff >= 0
    ensures Decompose(diff).days >= 0
    ensures 0 <= Decompose(diff).hours < 24 && 0 <= Decompose(diff).mins < 60
    ensures TotalSeconds(Decompose(diff)) == diff - diff % 60
  {
    DecomposeRecombine(diff);
  }

  /** Splitting a saved expiry length gives back the spin values it was
      saved from, when these were within their ranges. */
  lemma DecomposeInverse(e: Expiry)
    requires e.days >= 0 && 0 <= e.hours < 24 && 0 <= e.mins < 60
    ensures Decompose(TotalSeconds(e)) == e
  {
    var diff := TotalSeconds(e);
    var hrs := 24 * e.days + e.hours;
    var q := 60 * hrs + e.mins;
    assert diff == 60 * q;
    DivExact(diff, 60, q, 0);
    assert CDiv(diff, 60) == q;
    DivExact(q, 60, hrs, e.mins);
    assert CMod(q, 60) == e.mins;
    DivExact(diff, 3600, hrs, 60 * e.mins);
    assert CDiv(diff, 3600) == hrs;
    DivExact(hrs, 24, e.days, e.hours);
  }

  /** Euclidean division recovers a quotient and remainder it is given. */
  lemma DivExact(a: int, b: int, q: int, r: int)
    requires b > 0 && 0 <= r < b && a == b * q + r
    ensures a / b == q && a % b == r
  {
    var q0, r0 := a / b, a % b;
    assert b * (q - q0) == r0 - r;
    if q > q0 {
      MulAtLeast(b, q - q0);
    } else if q < q0 {
      MulAtLeast(b, q0 - q);
    }
  }

  /** A positive multiple of a positive number is at least that number. */
  lemma MulAtLeast(b: int, k: int)
    requires b > 0 && k >= 1
    ensures b * k >= b
  {
    assert b * k == b + b * (k - 1);
  }

  /** A rule saved with a positive expiry and shown at the same moment shows
      the spin values it was saved with. */
  lemma SaveThenShow(form: IgnoreForm, now: int)
    requires form.days >= 0 && 0 <= form.hours < 24 && 0 <= form.mins < 60
    requires ExpirySeconds(form.days, form.hours, form.mins) > 0
    ensures LoadExpiry(now + ExpirySeconds(form.days, form.hours, form.mins), now)
            == (if now + ExpirySeconds(form.days, form.hours, form.mins) == 0 then None
                else Some(Expiry(form.days, form.hours, form.mins)))
  {
    var e := Expiry(form.days, form.hours, form.mins);
    DecomposeInverse(e);
    assert now + TotalSeconds(e) - now == TotalSeconds(e);
  }

  // ---------------------------------------------------------------------
  // Carry and borrow between the expiry spin buttons
  // ---------------------------------------------------------------------

  /** event_hours_changed on values: an hour below 0 borrows a day (or is
      clamped to 0 when there is none), an hour above 23 carries into the
      days. */
  function HoursRule(e: Expiry): (r: Expiry)
    ensures r.mins == e.mins
    ensures 0 <= e.hours <= 23 ==> r == e
  {
    if e.hours < 0 then
      (if e.days == 0 then e.(hours := 0) else e.(days := e.days - 1, hours := 23))
    else if e.hours > 23 then e.(days := e.days + 1, hours := 0)
    else e
  }

  /** What a change of the minutes spin leads to: a minute below 0 borrows
      an hour (or is clamped to 0 when hours and days are both 0), a minute
      above 59 carries into the hours; setting the hours spin runs the
      hours handler in turn. */
  function MinsEdit(e: Expiry): (r: Expiry)
    ensures 0 <= e.mins <= 59 ==> r == e
  {
    if e.mins < 0 then
      (if e.hours == 0 && e.days == 0 then e.(mins := 0)
       else HoursRule(e.(hours := e.hours - 1)).(mins := 59))
    else if e.mins > 59 then HoursRule(e.(hours := e.hours + 1)).(mins := 0)
    else e
  }

  /** A one-step change of the hours (to -1 or 24) keeps days * 24 + hours
      unless it was clamped at zero, and leaves hours within 0..23 and the
      days non-negative. */
  lemma HoursRuleKeepsTotal(e: Expiry)
    requires e.days >= 0 && -1 <= e.hours <= 24
    ensures HoursRule(e).days >= 0 && 0 <= HoursRule(e).hours <= 23
    ensures !(e.hours < 0 && e.days == 0) ==>
              HoursRule(e).days * 24 + HoursRule(e).hours == e.days * 24 + e.hours
    ensures e.hours < 0 && e.days == 0 ==> HoursRule(e) == e.(hours := 0)
  {
  }

  /** A one-step change of the minutes (to -1 or 60) from values within
      their ranges keeps the expiry length unless it was clamped at zero,
      and leaves every value within its range. */
  lemma MinsEditKeepsTotal(e: Expiry)
    requires e.days >= 0 && 0 <= e.hours <= 23 && -1 <= e.mins <= 60
    ensures MinsEdit(e).days >= 0 && 0 <= MinsEdit(e).hours <= 23
    ensures 0 <= MinsEdit(e).mins <= 59
    ensures !(e.mins < 0 && e.hours == 0 && e.days == 0) ==>
              TotalSeconds(MinsEdit(e)) == TotalSeconds(e)
    ensures e.mins < 0 && e.hours == 0 && e.days == 0 ==> MinsEdit(e) == e.(mins := 0)
  {
    if e.mins < 0 && !(e.hours == 0 && e.days == 0) {
      HoursRuleKeepsTotal(e.(hours := e.hours - 1));
    } else if e.mins > 59 {
      HoursRuleKeepsTotal(e.(hours := e.hours + 1));
    }
  }

  /** The three expiry spin buttons of one dialog. */
  class ExpirySpins {
    var days: int
    var hours: int
    var mins: int

    constructor (days: int, hours: int, mins: int)
      ensures this.days == days && this.hours == hours && this.mins == mins
    {
      this.days, this.hours, this.mins := days, hours, mins;
    }

    function Value(): Expiry
      reads this
    {
      Expiry(days, hours, mins)
    }

    /** event_hours_changed. The handler runs again when it sets the hours
        itself, but then finds them within 0..23 and does nothing. */
    method HoursChanged()
      modifies this`days, this`hours
      ensures Value() == HoursRule(old(Value()))
    {
      var h, d := hours, days;
      if h < 0 {
        if d == 0 {
          hours := 0;
        } else {
          days := d - 1;
          hours := 23;
        }
      } else if h > 23 {
        days := d + 1;
        hours := 0;
      }
    }

    /** event_mins_changed; setting the hours spin emits its "changed"
        signal, which runs the hours handler before the minutes are set. */
    method MinsChanged()
      modifies this
      ensures Value() == MinsEdit(old(Value()))
    {
      var m, h := mins, hours;
      if m < 0 {
        if h == 0 && days == 0 {
          mins := 0;
        } else {
          hours := h - 1;
          HoursChanged();
          mins := 59;
        }
      } else if m > 59 {
        hours := h + 1;
        HoursChanged();
        mins := 0;
      }
    }
  }

  // ---------------------------------------------------------------------
  // The channel list
  // ---------------------------------------------------------------------

  /** The list store behind the channel list: its rows, top first. */
  class ListStore {
    var rows: seq<string>

    constructor ()
      ensures rows == []
    {
      rows := [];
    }
  }

  /** ignore_channels_store_fill: each channel of the rule is put at the top
      of the store in turn, so they end up above the old rows in reverse
      order; a rule without channels leaves the store alone. */
  method StoreFill(store: ListStore, channels: Option<seq<string>>)
    modifies store`rows
    ensures channels.None? ==> store.rows == old(store.rows)
    ensures channels.Some? ==> store.rows == Reversed(channels.value) + old(store.rows)
  {
    if channels.None? {
      return;
    }
    var chs := channels.value;
    var i := 0;
    while i < |chs|
      invariant 0 <= i <= |chs|
      invariant store.rows == Reversed(chs[..i]) + old(store.rows)
    {
      assert chs[..i + 1][..i] == chs[..i];
      store.rows := [chs[i]] + store.rows;
      i := i + 1;
    }
    assert chs[..i] == chs;
  }

  /** After a fill, row k holds the channel counted k from the end, and
      the store holds each channel as often as the rule does. */
  lemma StoreFillOrder(channels: seq<string>, before: seq<string>, k: nat)
    requires k < |channels|
    ensures (Reversed(channels) + before)[k] == channels[|channels| - 1 - k]
    ensures multiset(Reversed(channels) + before) == multiset(channels) + multiset(before)
  {
    ReversedIndex(channels, k);
    ReversedMultiset(channels);
  }
}
