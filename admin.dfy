/** admin.php: the administrators' page. It keeps the inventory and the expense
    ledger, lists the items running low and totals the expenses by category. */
module AdminPage {
  import opened Common
  import opened Tables
  import opened Schema
  import opened Hospital
  import opened Config
  import opened Text
  import opened Sorting

  // ------------------------------------------------------------------ the gate

  /** check_session(), then `$_SESSION['role'] !== 'Admin'` sends everyone else to
      the dashboard. None: the page goes on. */
  function AdminGate(session: Session): (r: Option<Response>)
    reads session
    ensures r.None? <==> session.LoggedIn() && session.HasRole(Admin)
    ensures !session.LoggedIn() ==> r == Some(Redirect(LoginUrl))
    ensures session.LoggedIn() && !session.HasRole(Admin) ==> r == Some(Redirect(DashboardUrl))
  {
    var guard := CheckSession(session);
    if guard.Some? then guard
    else if !session.HasRole(Admin) then Some(Redirect(DashboardUrl))
    else None
  }

  // ------------------------------------------------------------------ inventory

  /** UPDATE inventory SET quantity = ?, reorder_level = ? WHERE item_id = ?: the
      item keeps its name, category and unit; no other item changes. */
  function SetStock(inventory: Table<Item>, itemId: int, quantity: int, reorderLevel: int): (r: Table<Item>)
    requires inventory.Valid()
    ensures r.Valid() && r.next == inventory.next && r.rows.Keys == inventory.rows.Keys
    ensures forall id :: id in inventory.rows && id != itemId ==> r.rows[id] == inventory.rows[id]
    ensures itemId in inventory.rows ==>
              && r.rows[itemId].quantity == quantity
              && r.rows[itemId].reorderLevel == reorderLevel
              && r.rows[itemId].name == inventory.rows[itemId].name
              && r.rows[itemId].category == inventory.rows[itemId].category
              && r.rows[itemId].unit == inventory.rows[itemId].unit
    ensures itemId !in inventory.rows ==> r == inventory
  {
    if itemId in inventory.rows
    then Replace(inventory, itemId, inventory.rows[itemId].(quantity := quantity, reorderLevel := reorderLevel))
    else inventory
  }

  /** array_filter's test: the stock is at or below the reorder level. */
  predicate IsLow(item: Item)
  {
    item.quantity <= item.reorderLevel
  }

  /** After a stock update the item is low exactly when the new quantity is at
      or below the new reorder level, whatever it was before. */
  lemma RestockDecidesLow(inventory: Table<Item>, itemId: int, quantity: int, reorderLevel: int)
    requires inventory.Valid() && itemId in inventory.rows
    ensures IsLow(SetStock(inventory, itemId, quantity, reorderLevel).rows[itemId]) <==> quantity <= reorderLevel
  {
  }

  // ------------------------------------------------------------------ the POST actions

  datatype AdminPost =
    | PostAddInventory(itemName: string, category: string, quantity: int, unit: string, reorderLevel: int)
    | PostUpdateInventory(itemId: int, quantity: int, reorderLevel: int)
    | PostRemoveInventory(itemId: int)
    | PostAddExpense(expenseCategory: string, amount: int, description: string, date: string, recordedBy: int)
    | PostRemoveExpense(expenseId: int)
    | NoPost

  /** action 'add_inventory': one INSERT of the sanitised texts and the cast
      numbers. */
  method AddInventory(db: Database, env: Env, name: string, category: string, quantity: int, unit: string,
                      reorderLevel: int, fault: Fault) returns (r: Response)
    modifies db`inventory
    ensures r == if fault.Aborts(1) then Fatal else Shown
    ensures db.inventory
            == if fault.Persists(1)
               then Insert(old(db.inventory), Item(SanitizeInput(name, env.quotes), SanitizeInput(category, env.quotes),
                                                   quantity, SanitizeInput(unit, env.quotes), reorderLevel))
               else old(db.inventory)
  {
    var item := Item(SanitizeInput(name, env.quotes), SanitizeInput(category, env.quotes),
                     quantity, SanitizeInput(unit, env.quotes), reorderLevel);
    if fault == Throws(1) {
      return Fatal;
    }
    if fault != ReturnsFalse(1) {
      db.inventory := Insert(db.inventory, item);
    }
    return Shown;
  }

  /** action 'update_inventory'. */
  method UpdateInventory(db: Database, itemId: int, quantity: int, reorderLevel: int, fault: Fault)
    returns (r: Response)
    modifies db`inventory
    ensures r == if fault.Aborts(1) then Fatal else Shown
    ensures db.inventory
            == if fault.Persists(1) then SetStock(old(db.inventory), itemId, quantity, reorderLevel) else old(db.inventory)
  {
    if fault == Throws(1) {
      return Fatal;
    }
    if fault != ReturnsFalse(1) {
      db.inventory := SetStock(db.inventory, itemId, quantity, reorderLevel);
    }
    return Shown;
  }

  /** action 'remove_inventory'. */
  method RemoveInventory(db: Database, itemId: int, fault: Fault) returns (r: Response)
    modifies db`inventory
    ensures r == if fault.Aborts(1) then Fatal else Shown
    ensures db.inventory == if fault.Persists(1) then Delete(old(db.inventory), itemId) else old(db.inventory)
  {
    if fault == Throws(1) {
      return Fatal;
    }
    if fault != ReturnsFalse(1) {
      db.inventory := Delete(db.inventory, itemId);
    }
    return Shown;
  }

  /** action 'add_expense': the recorder is whatever staff id was posted; no
      check that such a staff member exists. */
  method AddExpense(db: Database, env: Env, category: string, amount: int, description: string, date: string,
                    recordedBy: int, fault: Fault) returns (r: Response)
    modifies db`expenses
    ensures r == if fault.Aborts(1) then Fatal else Shown
    ensures db.expenses
            == if fault.Persists(1)
               then Insert(old(db.expenses), Expense(SanitizeInput(category, env.quotes), amount,
                                                     SanitizeInput(description, env.quotes),
                                                     SanitizeInput(date, env.quotes), recordedBy))
               else old(db.expenses)
  {
    var expense := Expense(SanitizeInput(category, env.quotes), amount, SanitizeInput(description, env.quotes),
                           SanitizeInput(date, env.quotes), recordedBy);
    if fault == Throws(1) {
      return Fatal;
    }
    if fault != ReturnsFalse(1) {
      db.expenses := Insert(db.expenses, expense);
    }
    return Shown;
  }

  /** action 'remove_expense'. */
  method RemoveExpense(db: Database, expenseId: int, fault: Fault) returns (r: Response)
    modifies db`expenses
    ensures r == if fault.Aborts(1) then Fatal else Shown
    ensures db.expenses == if fault.Persists(1) then Delete(old(db.expenses), expenseId) else old(db.expenses)
  {
    if fault == Throws(1) {
      return Fatal;
    }
    if fault != ReturnsFalse(1) {
      db.expenses := Delete(db.expenses, expenseId);
    }
    return Shown;
  }

  /** The page's POST handling: the gate, then the switch on `action`. A visitor
      who is not an administrator changes nothing. */
  method HandlePost(db: Database, session: Session, env: Env, post: AdminPost, fault: Fault) returns (r: Response)
    modifies db`inventory, db`expenses
    ensures AdminGate(session).Some? ==> r == AdminGate(session).value && unchanged(db)
    ensures AdminGate(session).None? && post.NoPost? ==> r == Shown && unchanged(db)
    ensures AdminGate(session).None? && post.PostUpdateInventory? && fault == NoFault ==>
              db.inventory == SetStock(old(db.inventory), post.itemId, post.quantity, post.reorderLevel)
              && db.expenses == old(db.expenses)
    ensures post.PostAddInventory? || post.PostUpdateInventory? || post.PostRemoveInventory? ==>
              db.expenses == old(db.expenses)
    ensures post.PostAddExpense? || post.PostRemoveExpense? ==> db.inventory == old(db.inventory)
  {
    var guard := AdminGate(session);
    if guard.Some? {
      return guard.value;
    }
    match post {
      case PostAddInventory(name, category, quantity, unit, reorderLevel) =>
        r := AddInventory(db, env, name, category, quantity, unit, reorderLevel, fault);
      case PostUpdateInventory(itemId, quantity, reorderLevel) =>
        r := UpdateInventory(db, itemId, quantity, reorderLevel, fault);
      case PostRemoveInventory(itemId) =>
        r := RemoveInventory(db, itemId, fault);
      case PostAddExpense(category, amount, description, date, recordedBy) =>
        r := AddExpense(db, env, category, amount, description, date, recordedBy, fault);
      case PostRemoveExpense(expenseId) =>
        r := RemoveExpense(db, expenseId, fault);
      case NoPost =>
        r := Shown;
    }
  }

  // ------------------------------------------------------------------ the inventory list

  /** ORDER BY category, name (both compared code unit by code unit). */
  predicate ItemOrder(a: (int, Item), b: (int, Item))
  {
    (a.1.category != b.1.category && LexLe(a.1.category, b.1.category))
    || (a.1.category == b.1.category && LexLe(a.1.name, b.1.name))
  }

  lemma ItemOrderIsTotal()
    ensures TotalPreorder(ItemOrder)
  {
    forall a: (int, Item), b: (int, Item) ensures ItemOrder(a, b) || ItemOrder(b, a) {
      LexLeTotal(a.1.category, b.1.category);
      LexLeTotal(a.1.name, b.1.name);
    }
    forall a: (int, Item), b: (int, Item), c: (int, Item) | ItemOrder(a, b) && ItemOrder(b, c)
      ensures ItemOrder(a, c)
    {
      if a.1.category == b.1.category == c.1.category {
        LexLeTransitive(a.1.name, b.1.name, c.1.name);
      } else if a.1.category != b.1.category && b.1.category != c.1.category {
        LexLeTransitive(a.1.category, b.1.category, c.1.category);
        if a.1.category == c.1.category {
          LexLeAntisymmetric(a.1.category, b.1.category);
        }
      }
    }
  }

  /** SELECT * FROM inventory ORDER BY category, name. */
  function InventoryListing(inventory: Table<Item>): (listing: seq<(int, Item)>)
    requires inventory.Valid()
    ensures Sorted(listing, ItemOrder)
    ensures multiset(listing) == multiset(Scan(inventory))
    ensures forall i :: 0 <= i < |listing| ==> listing[i].0 in inventory.rows && inventory.rows[listing[i].0] == listing[i].1
  {
    ItemOrderIsTotal();
    var listing := SortBy(Scan(inventory), ItemOrder);
    assert forall i :: 0 <= i < |listing| ==> listing[i] in multiset(Scan(inventory));
    listing
  }

  /** $low_stock: the listed items at or below their reorder level, in list order. */
  function LowStock(listing: seq<(int, Item)>): (low: seq<(int, Item)>)
    ensures forall x :: x in low <==> x in listing && IsLow(x.1)
    ensures Sorted(listing, ItemOrder) ==> Sorted(low, ItemOrder)
  {
    FilterSorted(listing, (x: (int, Item)) => IsLow(x.1), ItemOrder);
    Filter(listing, (x: (int, Item)) => IsLow(x.1))
  }

  /** The low-stock table comes in the inventory list's order: by category,
      then name. */
  lemma LowStockSorted(inventory: Table<Item>)
    requires inventory.Valid()
    ensures Sorted(LowStock(InventoryListing(inventory)), ItemOrder)
  {
  }

  /** The low-stock list has one entry per stored item at or below its reorder
      level: as many as the dashboard's low-stock count. */
  lemma LowStockCount(inventory: Table<Item>)
    requires inventory.Valid()
    ensures |LowStock(InventoryListing(inventory))| == CountWhere(inventory, IsLow)
  {
    var keep := (x: (int, Item)) => IsLow(x.1);
    ItemOrderIsTotal();
    FilterLength(InventoryListing(inventory), keep);
    CountSortBy(Scan(inventory), ItemOrder, keep);
    ScanCount(inventory, IsLow);
    CountIsCountRows(Scan(inventory));
  }

  lemma {:induction false} CountIsCountRows(s: seq<(int, Item)>)
    ensures Count(s, (x: (int, Item)) => IsLow(x.1)) == CountRows(s, IsLow)
  {
    if s != [] {
      CountIsCountRows(s[1..]);
    }
  }

  /** A stored item is in the low-stock list exactly when it is low. */
  lemma LowStockHasItem(inventory: Table<Item>, itemId: int)
    requires inventory.Valid() && itemId in inventory.rows
    ensures (itemId, inventory.rows[itemId]) in LowStock(InventoryListing(inventory))
            <==> IsLow(inventory.rows[itemId])
  {
    ScanCovers(inventory, itemId);
    var i :| 0 <= i < |Scan(inventory)| && Scan(inventory)[i] == (itemId, inventory.rows[itemId]);
    assert (itemId, inventory.rows[itemId]) in multiset(Scan(inventory));
    assert (itemId, inventory.rows[itemId]) in multiset(InventoryListing(inventory));
  }

  // ------------------------------------------------------------------ the expense list

  /** A row of the expense join: the expense with its recorder's name. */
  datatype ExpenseLine = ExpenseLine(expenseId: int, expense: Expense, firstName: string, lastName: string)

  /** expenses e JOIN staff s ON e.recorded_by = s.staff_id, over a scan of the
      expenses: an expense whose recorder is not a stored staff member drops out. */
  function Join(scan: seq<(int, Expense)>, staff: map<int, Staff>): (lines: seq<ExpenseLine>)
    ensures forall i :: 0 <= i < |lines| ==>
              && lines[i].expense.recordedBy in staff
              && lines[i].firstName == staff[lines[i].expense.recordedBy].firstName
              && lines[i].lastName == staff[lines[i].expense.recordedBy].lastName
              && (lines[i].expenseId, lines[i].expense) in scan
    ensures forall i :: 0 <= i < |scan| && scan[i].1.recordedBy in staff ==> LineOf(scan[i], staff) in lines
  {
    if scan == [] then []
    else
      var rest := Join(scan[1..], staff);
      assert forall i :: 1 <= i < |scan| ==> scan[i] == scan[1..][i - 1];
      if scan[0].1.recordedBy in staff then [LineOf(scan[0], staff)] + rest else rest
  }

  function LineOf(entry: (int, Expense), staff: map<int, Staff>): ExpenseLine
    requires entry.1.recordedBy in staff
  {
    var s := staff[entry.1.recordedBy];
    ExpenseLine(entry.0, entry.1, s.firstName, s.lastName)
  }

  /** ORDER BY e.date DESC. */
  predicate DateDesc(a: ExpenseLine, b: ExpenseLine)
  {
    LexLe(b.expense.date, a.expense.date)
  }

  lemma DateDescIsTotal()
    ensures TotalPreorder(DateDesc)
  {
    forall a: ExpenseLine, b: ExpenseLine ensures DateDesc(a, b) || DateDesc(b, a) {
      LexLeTotal(a.expense.date, b.expense.date);
    }
    forall a: ExpenseLine, b: ExpenseLine, c: ExpenseLine | DateDesc(a, b) && DateDesc(b, c)
      ensures DateDesc(a, c)
    {
      LexLeTransitive(c.expense.date, b.expense.date, a.expense.date);
    }
  }

  /** The page's $expenses: the joined rows, latest date first. */
  function ExpenseListing(expenses: Table<Expense>, staff: Table<Staff>): (listing: seq<ExpenseLine>)
    requires expenses.Valid()
    ensures Sorted(listing, DateDesc)
    ensures multiset(listing) == multiset(Join(Scan(expenses), staff.rows))
  {
    DateDescIsTotal();
    SortBy(Join(Scan(expenses), staff.rows), DateDesc)
  }

  /** Every listed line is a stored expense whose recorder is a stored staff
      member, with that member's name; every such expense is listed. */
  lemma ExpenseListingContents(expenses: Table<Expense>, staff: Table<Staff>, line: ExpenseLine)
    requires expenses.Valid()
    ensures line in ExpenseListing(expenses, staff)
            <==> && line.expenseId in expenses.rows
                 && expenses.rows[line.expenseId] == line.expense
                 && line.expense.recordedBy in staff.rows
                 && line.firstName == staff.rows[line.expense.recordedBy].firstName
                 && line.lastName == staff.rows[line.expense.recordedBy].lastName
  {
    var scan := Scan(expenses);
    var joined := Join(scan, staff.rows);
    assert line in ExpenseListing(expenses, staff) <==> line in multiset(joined);
    if line in joined {
      var i :| 0 <= i < |joined| && joined[i] == line;
      var k :| 0 <= k < |scan| && scan[k] == (line.expenseId, line.expense);
    }
    if line.expenseId in expenses.rows && expenses.rows[line.expenseId] == line.expense
       && line.expense.recordedBy in staff.rows
       && line.firstName == staff.rows[line.expense.recordedBy].firstName
       && line.lastName == staff.rows[line.expense.recordedBy].lastName
    {
      ScanCovers(expenses, line.expenseId);
      var k :| 0 <= k < |scan| && scan[k] == (line.expenseId, expenses.rows[line.expenseId]);
      assert LineOf(scan[k], staff.rows) == line;
    }
  }

  // ------------------------------------------------------------------ totals by category

  /** What the expenses of one category add up to over some lines. */
  function CategorySum(lines: seq<ExpenseLine>, category: string): int
  {
    if lines == [] then 0
    else (if lines[0].expense.category == category then lines[0].expense.amount else 0)
         + CategorySum(lines[1..], category)
  }

  /** The categories present among some lines. */
  function Categories(lines: seq<ExpenseLine>): (cats: set<string>)
    ensures forall c :: c in cats <==> exists i :: 0 <= i < |lines| && lines[i].expense.category == c
  {
    set i | 0 <= i < |lines| :: lines[i].expense.category
  }

  lemma {:induction false} CategorySumAppend(lines: seq<ExpenseLine>, line: ExpenseLine, category: string)
    ensures CategorySum(lines + [line], category)
            == CategorySum(lines, category) + (if line.expense.category == category then line.expense.amount else 0)
  {
    if lines != [] {
      CategorySumAppend(lines[1..], line, category);
      assert (lines + [line])[1..] == lines[1..] + [line];
    }
  }

  lemma CategoriesAppend(lines: seq<ExpenseLine>, line: ExpenseLine)
    ensures Categories(lines + [line]) == Categories(lines) + {line.expense.category}
  {
    var longer := lines + [line];
    assert longer[|lines|] == line;
    forall c | c in Categories(lines) ensures c in Categories(longer) {
      var j :| 0 <= j < |lines| && lines[j].expense.category == c;
      assert longer[j] == lines[j];
    }
  }

  /** The running totals describe a prefix of the lines. */
  ghost predicate TotalsOf(totals: map<string, int>, lines: seq<ExpenseLine>)
  {
    && totals.Keys == Categories(lines)
    && (forall c :: c in totals ==> totals[c] == CategorySum(lines, c))
    && (forall c :: c !in totals ==> CategorySum(lines, c) == 0)
  }

  /** One turn of the foreach keeps the running totals right. */
  lemma TotalsStep(totals: map<string, int>, lines: seq<ExpenseLine>, line: ExpenseLine, next: map<string, int>)
    requires TotalsOf(totals, lines)
    requires var c := line.expense.category;
             next == totals[c := (if c in totals then totals[c] else 0) + line.expense.amount]
    ensures TotalsOf(next, lines + [line])
  {
    forall c ensures CategorySum(lines + [line], c)
                     == CategorySum(lines, c) + (if line.expense.category == c then line.expense.amount else 0)
    {
      CategorySumAppend(lines, line, c);
    }
    CategoriesAppend(lines, line);
  }

  /** The foreach over $expenses: a total per category present, zero-initialised
      on first sight and then added to. */
  method CategoryTotals(lines: seq<ExpenseLine>) returns (totals: map<string, int>)
    ensures totals.Keys == Categories(lines)
    ensures forall c :: c in totals ==> totals[c] == CategorySum(lines, c)
  {
    totals := map[];
    var i := 0;
    while i < |lines|
      invariant 0 <= i <= |lines|
      invariant TotalsOf(totals, lines[..i])
    {
      var line := lines[i];
      var category := line.expense.category;
      ghost var before := totals;
      if category !in totals {
        totals := totals[category := 0];
      }
      totals := totals[category := totals[category] + line.expense.amount];
      TotalsStep(before, lines[..i], line, totals);
      assert lines[..i + 1] == lines[..i] + [line];
      i := i + 1;
    }
    assert lines[..i] == lines;
  }

  lemma {:induction false} CategorySumInsert(x: ExpenseLine, s: seq<ExpenseLine>, category: string)
    requires TotalPreorder(DateDesc) && Sorted(s, DateDesc)
    ensures CategorySum(InsertSorted(x, s, DateDesc), category)
            == CategorySum(s, category) + (if x.expense.category == category then x.expense.amount else 0)
  {
    if s != [] && !DateDesc(x, s[0]) {
      CategorySumInsert(x, s[1..], category);
      var r := InsertSorted(x, s, DateDesc);
      assert r[1..] == InsertSorted(x, s[1..], DateDesc);
    } else {
      var r := [x] + s;
      assert r[1..] == s;
    }
  }

  lemma {:induction false} CategorySumSortBy(s: seq<ExpenseLine>, category: string)
    requires TotalPreorder(DateDesc)
    ensures CategorySum(SortBy(s, DateDesc), category) == CategorySum(s, category)
  {
    if s != [] {
      CategorySumSortBy(s[1..], category);
      CategorySumInsert(s[0], SortBy(s[1..], DateDesc), category);
    }
  }

  /** The totals do not depend on the ORDER BY: they are the sums over the join
      in scan order. */
  lemma TotalsIgnoreOrder(expenses: Table<Expense>, staff: Table<Staff>, category: string)
    requires expenses.Valid()
    ensures CategorySum(ExpenseListing(expenses, staff), category)
            == CategorySum(Join(Scan(expenses), staff.rows), category)
  {
    DateDescIsTotal();
    CategorySumSortBy(Join(Scan(expenses), staff.rows), category);
  }

  /** An expense recorded by a staff id with no staff row never reaches the
      listing: deleting it from the scan leaves the join exactly as it was, and
      so every total. */
  lemma {:induction false} OrphanNotJoined(scan: seq<(int, Expense)>, staff: map<int, Staff>, k: nat)
    requires k < |scan| && scan[k].1.recordedBy !in staff
    ensures Join(scan[..k] + scan[k + 1..], staff) == Join(scan, staff)
  {
    if k > 0 {
      var rest := scan[1..];
      OrphanNotJoined(rest, staff, k - 1);
      var shorter := [scan[0]] + (rest[..k - 1] + rest[k..]);
      assert scan[..k] + scan[k + 1..] == shorter;
      assert shorter[1..] == rest[..k - 1] + rest[k..];
    } else {
      assert scan[..k] + scan[k + 1..] == scan[1..];
    }
  }
}
