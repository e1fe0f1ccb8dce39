/**
 * Daily revenue report by country and signup month: every payment is
 * looked up in the users table by user id (a left join, so no payment is
 * lost), a missing country or signup month becomes "UNKNOWN", the payments
 * are grouped by (country, signup month) with the sum of the amounts and the
 * number of distinct payers, and every row is tagged with the run date.
 *
 * Dates arrive already parsed; amounts are integers (for instance cents).
 */
module CountryReport {
  import opened Wrappers
  import Order
  import Dedup

  /** What `fillna` puts in a missing country or signup month. */
  const Unknown := "UNKNOWN"

  /** A parsed calendar date. */
  datatype Date = Date(year: int, month: int, day: int)

  /** One row of the users file; a cell may be empty. */
  datatype User = User(userId: string, country: Option<string>, signupDate: Option<Date>)

  /** One row of the payments file. */
  datatype Payment = Payment(userId: string, amount: int, ts: int)

  /** A user reduced to the columns the join uses, with the signup month in place of the date. */
  datatype UserMonth = UserMonth(userId: string, country: Option<string>, signupMonth: Option<string>)

  /** A payment after the left join: the user's columns are missing when no user matched. */
  datatype Joined = Joined(userId: string, amount: int, country: Option<string>, signupMonth: Option<string>)

  /** A payment after the missing cells are filled. */
  datatype Mapped = Mapped(userId: string, amount: int, country: string, signupMonth: string)

  /** A group of the report. */
  datatype Group = Group(country: string, signupMonth: string)

  /** One line of the report. */
  datatype ReportRow = ReportRow(country: string, signupMonth: string, totalRevenue: int, uniquePayers: nat,
                                 reportDate: string)

  // ---------------------------------------------------------------------
  // Step 1: the signup month, `strftime('%Y-%m')`
  // ---------------------------------------------------------------------

  /** The decimal digit of `n`'s last place. */
  function Digit(n: int): char
  {
    "0123456789"[n % 10]
  }

  function DigitValue(c: char): int
  {
    c as int - '0' as int
  }

  predicate IsDigit(c: char)
  {
    '0' <= c <= '9'
  }

  /** `%Y-%m`: the year on four digits, a dash, the month on two digits. */
  function SignupMonth(d: Date): string
  {
    [Digit(d.year / 1000), Digit(d.year / 100), Digit(d.year / 10), Digit(d.year), '-',
     Digit(d.month / 10), Digit(d.month)]
  }

  /** Reads a `YYYY-MM` string back into its year and month. */
  function ParseMonth(s: string): Option<(int, int)>
  {
    if |s| == 7 && s[4] == '-' && IsDigit(s[0]) && IsDigit(s[1]) && IsDigit(s[2]) && IsDigit(s[3])
       && IsDigit(s[5]) && IsDigit(s[6])
    then
      Some((1000 * DigitValue(s[0]) + 100 * DigitValue(s[1]) + 10 * DigitValue(s[2]) + DigitValue(s[3]),
            10 * DigitValue(s[5]) + DigitValue(s[6])))
    else None
  }

  lemma DigitRoundTrip(n: int)
    ensures IsDigit(Digit(n)) && DigitValue(Digit(n)) == n % 10
  {
  }

  /** For a four-digit year, the signup month holds exactly the date's year and month. */
  lemma SignupMonthRoundTrip(d: Date)
    requires 0 <= d.year <= 9999 && 1 <= d.month <= 12
    ensures ParseMonth(SignupMonth(d)) == Some((d.year, d.month))
  {
    var y, m := d.year, d.month;
    DigitRoundTrip(y / 1000);
    DigitRoundTrip(y / 100);
    DigitRoundTrip(y / 10);
    DigitRoundTrip(y);
    DigitRoundTrip(m / 10);
    DigitRoundTrip(m);
    FourDigits(y);
    assert m / 10 % 10 == m / 10;
  }

  /** A four-digit number is its digits, weighted by place. */
  lemma FourDigits(y: int)
    requires 0 <= y <= 9999
    ensures 1000 * (y / 1000 % 10) + 100 * (y / 100 % 10) + 10 * (y / 10 % 10) + y % 10 == y
  {
    var a, b, c := y / 10, y / 100, y / 1000;
    assert y == 10 * a + y % 10;
    assert a / 10 == b;
    assert a == 10 * b + a % 10;
    assert b / 10 == c;
    assert b == 10 * c + b % 10;
    assert c % 10 == c;
  }

  /** Two dates share a signup month exactly when they share year and month. */
  lemma SignupMonthInjective(a: Date, b: Date)
    requires 0 <= a.year <= 9999 && 1 <= a.month <= 12
    requires 0 <= b.year <= 9999 && 1 <= b.month <= 12
    ensures SignupMonth(a) == SignupMonth(b) <==> a.year == b.year && a.month == b.month
  {
    SignupMonthRoundTrip(a);
    SignupMonthRoundTrip(b);
  }

  /** No signup month reads "UNKNOWN", so a filled cell is never mistaken for a real month. */
  lemma SignupMonthNotUnknown(d: Date)
    ensures SignupMonth(d) != Unknown
  {
    assert SignupMonth(d)[4] == '-' && Unknown[4] == 'O';
  }

  /** `users[['user_id', 'country', 'signup_month']]`; a missing date gives a missing month. */
  function PrepareUser(u: User): UserMonth
  {
    UserMonth(u.userId, u.country, if u.signupDate.Some? then Some(SignupMonth(u.signupDate.value)) else None)
  }

  function PrepareUsers(users: seq<User>): seq<UserMonth>
  {
    seq(|users|, i requires 0 <= i < |users| => PrepareUser(users[i]))
  }

  lemma PrepareUsersMember(users: seq<User>, id: string)
    ensures (exists u :: u in PrepareUsers(users) && u.userId == id) <==> (exists u :: u in users && u.userId == id)
  {
    var us := PrepareUsers(users);
    if u :| u in us && u.userId == id {
      var i :| 0 <= i < |us| && us[i] == u;
      assert users[i] in users;
    }
    if u :| u in users && u.userId == id {
      var i :| 0 <= i < |users| && users[i] == u;
      assert us[i] in us;
    }
  }

  // ---------------------------------------------------------------------
  // Steps 3 and 4: left join on user_id, then fill the missing cells
  // ---------------------------------------------------------------------

  /** The users whose id is `id`, in file order. */
  function Matches(users: seq<UserMonth>, id: string): seq<UserMonth>
  {
    if users == [] then []
    else (if users[0].userId == id then [users[0]] else []) + Matches(users[1..], id)
  }

  lemma {:induction false} MatchesMember(users: seq<UserMonth>, id: string, u: UserMonth)
    ensures u in Matches(users, id) <==> u in users && u.userId == id
  {
    if users != [] {
      MatchesMember(users[1..], id, u);
      assert users == [users[0]] + users[1..];
    }
  }

  /** One joined row per matching user, or one row with the user's columns missing. */
  function JoinPayment(p: Payment, users: seq<UserMonth>): seq<Joined>
  {
    var ms := Matches(users, p.userId);
    if ms == [] then [Joined(p.userId, p.amount, None, None)]
    else seq(|ms|, i requires 0 <= i < |ms| => Joined(p.userId, p.amount, ms[i].country, ms[i].signupMonth))
  }

  /** `payments.merge(users, on='user_id', how='left')`: payments in order, each followed by its matches. */
  function LeftJoin(payments: seq<Payment>, users: seq<UserMonth>): seq<Joined>
  {
    if payments == [] then [] else JoinPayment(payments[0], users) + LeftJoin(payments[1..], users)
  }

  function OrUnknown(cell: Option<string>): string
  {
    if cell.Some? then cell.value else Unknown
  }

  function FillMissing(j: Joined): Mapped
  {
    Mapped(j.userId, j.amount, OrUnknown(j.country), OrUnknown(j.signupMonth))
  }

  /** `fillna('UNKNOWN')` on the country and signup-month columns. */
  function FillAll(js: seq<Joined>): seq<Mapped>
  {
    if js == [] then [] else [FillMissing(js[0])] + FillAll(js[1..])
  }

  lemma {:induction false} FillAllAppend(a: seq<Joined>, b: seq<Joined>)
    ensures FillAll(a + b) == FillAll(a) + FillAll(b)
  {
    if a == [] {
      assert a + b == b;
    } else {
      assert (a + b)[1..] == a[1..] + b;
      FillAllAppend(a[1..], b);
    }
  }

  /** The payments with their country and signup month, as the group-by sees them. */
  function MappedPayments(payments: seq<Payment>, users: seq<User>): seq<Mapped>
  {
    FillAll(LeftJoin(payments, PrepareUsers(users)))
  }

  /** No user id repeats in the users file. */
  predicate UniqueUsers(users: seq<User>)
  {
    forall i, j :: 0 <= i < j < |users| ==> users[i].userId != users[j].userId
  }

  lemma {:induction false} NoMatches(users: seq<UserMonth>, id: string)
    requires forall k :: 0 <= k < |users| ==> users[k].userId != id
    ensures Matches(users, id) == []
  {
    if users != [] {
      NoMatches(users[1..], id);
    }
  }

  /** When user ids do not repeat, at most one user matches a payment. */
  lemma {:induction false} MatchesAtMostOne(users: seq<UserMonth>, id: string)
    requires forall i, j :: 0 <= i < j < |users| ==> users[i].userId != users[j].userId
    ensures |Matches(users, id)| <= 1
  {
    if users != [] {
      var rest := users[1..];
      MatchesAtMostOne(rest, id);
      if users[0].userId == id {
        forall k | 0 <= k < |rest| ensures rest[k].userId != id {
          assert rest[k] == users[k + 1];
        }
        NoMatches(rest, id);
      }
    }
  }

  /**
   * With unique user ids the join keeps the payments one for one: the i-th
   * mapped row carries the i-th payment's user id and amount.
   */
  lemma {:induction false} LeftJoinKeepsPayments(payments: seq<Payment>, users: seq<User>)
    requires UniqueUsers(users)
    ensures |MappedPayments(payments, users)| == |payments|
    ensures forall i :: 0 <= i < |payments| ==>
      MappedPayments(payments, users)[i].userId == payments[i].userId
      && MappedPayments(payments, users)[i].amount == payments[i].amount
  {
    if payments != [] {
      var us := PrepareUsers(users);
      var p := payments[0];
      MatchesAtMostOne(us, p.userId);
      LeftJoinKeepsPayments(payments[1..], users);
      var head := JoinPayment(p, us);
      assert |head| == 1 && head[0].userId == p.userId && head[0].amount == p.amount;
      FillAllAppend(head, LeftJoin(payments[1..], us));
      assert FillAll(head) == [FillMissing(head[0])];
    }
  }

  /** The sum of the payment amounts. */
  function PaymentTotal(payments: seq<Payment>): int
  {
    if payments == [] then 0 else payments[0].amount + PaymentTotal(payments[1..])
  }

  /** The sum of the amounts of mapped payments: `('amount', 'sum')`. */
  function Revenue(ms: seq<Mapped>): int
  {
    if ms == [] then 0 else ms[0].amount + Revenue(ms[1..])
  }

  lemma {:induction false} RevenueOfSameAmounts(ms: seq<Mapped>, payments: seq<Payment>)
    requires |ms| == |payments|
    requires forall i :: 0 <= i < |ms| ==> ms[i].amount == payments[i].amount
    ensures Revenue(ms) == PaymentTotal(payments)
  {
    if ms != [] {
      RevenueOfSameAmounts(ms[1..], payments[1..]);
    }
  }

  /** With unique user ids the mapped payments carry exactly the revenue of the payments file. */
  lemma MappedRevenueConserved(payments: seq<Payment>, users: seq<User>)
    requires UniqueUsers(users)
    ensures Revenue(MappedPayments(payments, users)) == PaymentTotal(payments)
  {
    LeftJoinKeepsPayments(payments, users);
    RevenueOfSameAmounts(MappedPayments(payments, users), payments);
  }

  /**
   * No payment is dropped by the join: it reappears with its user id and
   * amount, and, when no user has its id, with "UNKNOWN" country and month.
   */
  lemma {:induction false} JoinKeepsPayment(payments: seq<Payment>, users: seq<User>, p: Payment)
    requires p in payments
    ensures exists m :: m in MappedPayments(payments, users) && m.userId == p.userId && m.amount == p.amount
    ensures (forall u :: u in users ==> u.userId != p.userId) ==>
      Mapped(p.userId, p.amount, Unknown, Unknown) in MappedPayments(payments, users)
  {
    var us := PrepareUsers(users);
    var head := JoinPayment(payments[0], us);
    FillAllAppend(head, LeftJoin(payments[1..], us));
    assert MappedPayments(payments, users) == FillAll(head) + MappedPayments(payments[1..], users);
    if payments[0] == p {
      assert head[0].userId == p.userId && head[0].amount == p.amount;
      assert FillAll(head)[0] == FillMissing(head[0]);
      assert FillMissing(head[0]) in MappedPayments(payments, users);
      if forall u :: u in users ==> u.userId != p.userId {
        PrepareUsersMember(users, p.userId);
        if Matches(us, p.userId) != [] {
          MatchesMember(us, p.userId, Matches(us, p.userId)[0]);
        }
      }
    } else {
      JoinKeepsPayment(payments[1..], users, p);
    }
  }

  // ---------------------------------------------------------------------
  // Step 5: group by (country, signup_month)
  // ---------------------------------------------------------------------

  function GroupOfRow(m: Mapped): Group
  {
    Group(m.country, m.signupMonth)
  }

  /** The order in which the group-by lists its groups: country, then signup month. */
  predicate GroupLt(a: Group, b: Group)
  {
    Order.StrLt(a.country, b.country) || (a.country == b.country && Order.StrLt(a.signupMonth, b.signupMonth))
  }

  lemma GroupLtIsStrictTotalOrder()
    ensures Order.IsStrictTotalOrder(GroupLt)
  {
    Order.StrLtIsStrictTotalOrder();
    forall a: Group, b: Group | a != b ensures GroupLt(a, b) || GroupLt(b, a) {
      assert a == Group(a.country, a.signupMonth) && b == Group(b.country, b.signupMonth);
    }
  }

  function Groups(ms: seq<Mapped>): seq<Group>
  {
    if ms == [] then [] else [GroupOfRow(ms[0])] + Groups(ms[1..])
  }

  lemma {:induction false} GroupsMember(ms: seq<Mapped>, g: Group)
    ensures g in Groups(ms) <==> exists m :: m in ms && GroupOfRow(m) == g
  {
    if ms != [] {
      GroupsMember(ms[1..], g);
      assert ms == [ms[0]] + ms[1..];
    }
  }

  /** The mapped payments of one group, in order. */
  function GroupOf(ms: seq<Mapped>, g: Group): seq<Mapped>
  {
    if ms == [] then []
    else (if GroupOfRow(ms[0]) == g then [ms[0]] else []) + GroupOf(ms[1..], g)
  }

  lemma {:induction false} GroupOfMember(ms: seq<Mapped>, g: Group, m: Mapped)
    ensures m in GroupOf(ms, g) <==> m in ms && GroupOfRow(m) == g
  {
    if ms != [] {
      GroupOfMember(ms[1..], g, m);
      assert ms == [ms[0]] + ms[1..];
    }
  }

  /** The user ids of a group. */
  function Payers(group: seq<Mapped>): set<string>
  {
    if group == [] then {} else {group[0].userId} + Payers(group[1..])
  }

  /** `('user_id', 'nunique')` counts the distinct user ids of the group: at least one, at most the group's size. */
  lemma {:induction false} PayersBounds(group: seq<Mapped>)
    ensures forall id :: id in Payers(group) <==> exists m :: m in group && m.userId == id
    ensures group != [] ==> 1 <= |Payers(group)|
    ensures |Payers(group)| <= |group|
  {
    if group != [] {
      PayersBounds(group[1..]);
      assert group == [group[0]] + group[1..];
      assert group[0].userId in Payers(group);
    }
  }

  /** The report line of one group. */
  function RowFor(ms: seq<Mapped>, g: Group, runDate: string): ReportRow
  {
    var group := GroupOf(ms, g);
    ReportRow(g.country, g.signupMonth, Revenue(group), |Payers(group)|, runDate)
  }

  function RowsFor(ms: seq<Mapped>, gs: seq<Group>, runDate: string): seq<ReportRow>
  {
    if gs == [] then [] else [RowFor(ms, gs[0], runDate)] + RowsFor(ms, gs[1..], runDate)
  }

  /** The whole report: the groups in group-by order, each with its line, tagged with the run date. */
  function BuildReport(runDate: string, users: seq<User>, payments: seq<Payment>): seq<ReportRow>
  {
    var ms := MappedPayments(payments, users);
    GroupLtIsStrictTotalOrder();
    RowsFor(ms, Order.SortedDistinct(GroupLt, Groups(ms)), runDate)
  }

  // ---------------------------------------------------------------------
  // Properties of the report
  // ---------------------------------------------------------------------

  function RowGroup(r: ReportRow): Group
  {
    Group(r.country, r.signupMonth)
  }

  lemma {:induction false} RowsForAt(ms: seq<Mapped>, gs: seq<Group>, runDate: string, i: int)
    requires 0 <= i < |gs|
    ensures |RowsFor(ms, gs, runDate)| == |gs| && RowsFor(ms, gs, runDate)[i] == RowFor(ms, gs[i], runDate)
  {
    if i > 0 {
      RowsForAt(ms, gs[1..], runDate, i - 1);
    } else {
      RowsForLength(ms, gs, runDate);
    }
  }

  lemma {:induction false} RowsForLength(ms: seq<Mapped>, gs: seq<Group>, runDate: string)
    ensures |RowsFor(ms, gs, runDate)| == |gs|
  {
    if gs != [] {
      RowsForLength(ms, gs[1..], runDate);
    }
  }

  /** The groups of the report's lines, in order, are the distinct groups of the payments, sorted. */
  lemma ReportGroups(runDate: string, users: seq<User>, payments: seq<Payment>)
    ensures Order.SortedOn(RowGroup, GroupLt, BuildReport(runDate, users, payments))
    ensures Order.DistinctKeys(RowGroup, BuildReport(runDate, users, payments))
  {
    var ms := MappedPayments(payments, users);
    GroupLtIsStrictTotalOrder();
    var gs := Order.SortedDistinct(GroupLt, Groups(ms));
    var rows := BuildReport(runDate, users, payments);
    RowsForLength(ms, gs, runDate);
    forall i, j | 0 <= i < j < |rows| ensures GroupLt(RowGroup(rows[i]), RowGroup(rows[j])) {
      RowsForAt(ms, gs, runDate, i);
      RowsForAt(ms, gs, runDate, j);
    }
    Order.SortedOnIsDistinct(RowGroup, GroupLt, rows);
  }

  /** There is a report line for a (country, signup month) exactly when some mapped payment has it. */
  lemma ReportCoversGroups(runDate: string, users: seq<User>, payments: seq<Payment>, g: Group)
    ensures Dedup.KeyOccurs(RowGroup, g, BuildReport(runDate, users, payments))
      <==> exists m :: m in MappedPayments(payments, users) && GroupOfRow(m) == g
  {
    var ms := MappedPayments(payments, users);
    GroupLtIsStrictTotalOrder();
    var gs := Order.SortedDistinct(GroupLt, Groups(ms));
    var rows := BuildReport(runDate, users, payments);
    RowsForLength(ms, gs, runDate);
    GroupsMember(ms, g);
    if Dedup.KeyOccurs(RowGroup, g, rows) {
      var i :| 0 <= i < |rows| && RowGroup(rows[i]) == g;
      RowsForAt(ms, gs, runDate, i);
      assert gs[i] in gs;
    }
    if g in gs {
      var i :| 0 <= i < |gs| && gs[i] == g;
      RowsForAt(ms, gs, runDate, i);
    }
  }

  /**
   * Every report line sums the amounts of a non-empty group, counts its
   * distinct payers (between one and the group's size), and carries the run
   * date.
   */
  lemma ReportRowFacts(runDate: string, users: seq<User>, payments: seq<Payment>, r: ReportRow)
    requires r in BuildReport(runDate, users, payments)
    ensures var group := GroupOf(MappedPayments(payments, users), RowGroup(r));
      && group != []
      && r.totalRevenue == Revenue(group)
      && r.uniquePayers == |Payers(group)|
      && 1 <= r.uniquePayers <= |group|
      && r.reportDate == runDate
  {
    var ms := MappedPayments(payments, users);
    GroupLtIsStrictTotalOrder();
    var gs := Order.SortedDistinct(GroupLt, Groups(ms));
    var rows := BuildReport(runDate, users, payments);
    RowsForLength(ms, gs, runDate);
    var i :| 0 <= i < |rows| && rows[i] == r;
    RowsForAt(ms, gs, runDate, i);
    var g := gs[i];
    assert g in gs && RowGroup(r) == g;
    GroupsMember(ms, g);
    var m :| m in ms && GroupOfRow(m) == g;
    GroupOfMember(ms, g, m);
    PayersBounds(GroupOf(ms, g));
  }

  /** Every report line carries the run date. */
  lemma ReportDateEverywhere(runDate: string, users: seq<User>, payments: seq<Payment>)
    ensures forall r :: r in BuildReport(runDate, users, payments) ==> r.reportDate == runDate
  {
    forall r | r in BuildReport(runDate, users, payments) ensures r.reportDate == runDate {
      ReportRowFacts(runDate, users, payments, r);
    }
  }

  /** The sum of the report's revenue column. */
  function TotalRevenue(rows: seq<ReportRow>): int
  {
    if rows == [] then 0 else rows[0].totalRevenue + TotalRevenue(rows[1..])
  }

  /** The revenue of the groups `gs`, added up. */
  function GroupsRevenue(ms: seq<Mapped>, gs: seq<Group>): int
  {
    if gs == [] then 0 else Revenue(GroupOf(ms, gs[0])) + GroupsRevenue(ms, gs[1..])
  }

  /** Adding one payment in front adds its amount to its own group's revenue, if that group is listed. */
  lemma {:induction false} GroupsRevenueCons(m: Mapped, rest: seq<Mapped>, gs: seq<Group>)
    requires forall i, j :: 0 <= i < j < |gs| ==> gs[i] != gs[j]
    ensures GroupsRevenue([m] + rest, gs)
      == (if GroupOfRow(m) in gs then m.amount else 0) + GroupsRevenue(rest, gs)
  {
    if gs != [] {
      var tail, g := gs[1..], GroupOfRow(m);
      GroupsRevenueCons(m, rest, tail);
      assert ([m] + rest)[0] == m && ([m] + rest)[1..] == rest;
      var own := GroupOf(rest, gs[0]);
      if g == gs[0] {
        assert GroupOf([m] + rest, gs[0]) == [m] + own;
        assert ([m] + own)[1..] == own;
        assert Revenue([m] + own) == m.amount + Revenue(own);
        forall k | 0 <= k < |tail| ensures tail[k] != g {
          assert tail[k] == gs[k + 1];
        }
      } else {
        assert GroupOf([m] + rest, gs[0]) == own;
        assert g in gs <==> g in tail;
      }
    }
  }

  /** Grouping partitions the payments: the groups' revenues add up to the whole revenue. */
  lemma {:induction false} RevenuePartition(ms: seq<Mapped>, gs: seq<Group>)
    requires forall i, j :: 0 <= i < j < |gs| ==> gs[i] != gs[j]
    requires forall m :: m in ms ==> GroupOfRow(m) in gs
    ensures GroupsRevenue(ms, gs) == Revenue(ms)
  {
    if ms != [] {
      RevenuePartition(ms[1..], gs);
      assert ms == [ms[0]] + ms[1..];
      GroupsRevenueCons(ms[0], ms[1..], gs);
    } else {
      GroupsRevenueOfNothing(gs);
    }
  }

  lemma {:induction false} GroupsRevenueOfNothing(gs: seq<Group>)
    ensures GroupsRevenue([], gs) == 0
  {
    if gs != [] {
      GroupsRevenueOfNothing(gs[1..]);
    }
  }

  lemma {:induction false} TotalOfRowsFor(ms: seq<Mapped>, gs: seq<Group>, runDate: string)
    ensures TotalRevenue(RowsFor(ms, gs, runDate)) == GroupsRevenue(ms, gs)
  {
    if gs != [] {
      TotalOfRowsFor(ms, gs[1..], runDate);
    }
  }

  /**
   * The report's revenue column adds up to the revenue of all mapped
   * payments, and, when user ids do not repeat, to the sum of all payment
   * amounts.
   */
  lemma RevenueConserved(runDate: string, users: seq<User>, payments: seq<Payment>)
    ensures TotalRevenue(BuildReport(runDate, users, payments)) == Revenue(MappedPayments(payments, users))
    ensures UniqueUsers(users) ==> TotalRevenue(BuildReport(runDate, users, payments)) == PaymentTotal(payments)
  {
    var ms := MappedPayments(payments, users);
    GroupLtIsStrictTotalOrder();
    var gs := Order.SortedDistinct(GroupLt, Groups(ms));
    TotalOfRowsFor(ms, gs, runDate);
    forall i, j | 0 <= i < j < |gs| ensures gs[i] != gs[j] {
      Order.SortedByIsDistinct(GroupLt, gs, i, j);
    }
    forall m | m in ms ensures GroupOfRow(m) in gs {
      GroupsMember(ms, GroupOfRow(m));
    }
    RevenuePartition(ms, gs);
    if UniqueUsers(users) {
      MappedRevenueConserved(payments, users);
    }
  }

  /** A payment whose user is unknown is reported under the ("UNKNOWN", "UNKNOWN") group. */
  lemma UnknownUserReported(runDate: string, users: seq<User>, payments: seq<Payment>, p: Payment)
    requires p in payments
    requires forall u :: u in users ==> u.userId != p.userId
    ensures Dedup.KeyOccurs(RowGroup, Group(Unknown, Unknown), BuildReport(runDate, users, payments))
  {
    JoinKeepsPayment(payments, users, p);
    var m := Mapped(p.userId, p.amount, Unknown, Unknown);
    assert GroupOfRow(m) == Group(Unknown, Unknown);
    ReportCoversGroups(runDate, users, payments, Group(Unknown, Unknown));
  }
}
