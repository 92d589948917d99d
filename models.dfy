/** The three tables of the schema, the price validator that guards every
    assignment to RestaurantPizza.price, the flat serialization of a join row,
    and the shape a consistent store keeps. */
module Models {
  import opened Wrappers
  import opened Json
  import opened Table

  /** A row of `restaurants`. Name and address are nullable text columns. */
  datatype Restaurant = Restaurant(id: int, name: Option<string>, address: Option<string>)

  /** A row of `pizzas`. Name and ingredients are NOT NULL, so they are plain strings. */
  datatype Pizza = Pizza(id: int, name: string, ingredients: string)

  /** A row of `restaurant_pizzas`, the join entity that carries a price.
      Every column is NOT NULL; pizzaId references pizzas.id and restaurantId
      references restaurants.id. */
  datatype RestaurantPizza = RestaurantPizza(id: int, price: int, pizzaId: int, restaurantId: int)

  const MinPrice: int := 1
  const MaxPrice: int := 30
  const PriceError: string := "Price must be between 1 and 30"

  /** The @validates('price') hook: it passes a price in [1, 30] through
      unchanged and raises ValueError for any other. */
  function ValidatePrice(price: int): (r: Result<int, string>)
    ensures r.Ok? <==> MinPrice <= price <= MaxPrice
    ensures r.Ok? ==> r.value == price
    ensures r.Err? ==> r.error == PriceError
  {
    if price < 1 || price > 30 then Err(PriceError) else Ok(price)
  }

  /** Building a RestaurantPizza: the price goes through the validator, so a
      row that is built at all has a price in range. */
  function NewRestaurantPizza(id: int, pizzaId: int, restaurantId: int, price: int): (r: Result<RestaurantPizza, string>)
    ensures r.Ok? <==> ValidatePrice(price).Ok?
    ensures r.Ok? ==> MinPrice <= r.value.price <= MaxPrice
    ensures r.Ok? ==> r.value.id == id && r.value.pizzaId == pizzaId
                      && r.value.restaurantId == restaurantId && r.value.price == price
    ensures r.Err? ==> r.error == PriceError
  {
    match ValidatePrice(price)
    case Ok(p) => Ok(RestaurantPizza(id, p, pizzaId, restaurantId))
    case Err(e) => Err(e)
  }

  /** RestaurantPizza.to_dict: the four columns and nothing else, so a join
      row never embeds its pizza or its restaurant. */
  function ToDict(rp: RestaurantPizza): (j: Json)
    ensures Keys(j) == ["id", "price", "pizza_id", "restaurant_id"]
    ensures Get(j, "id") == Some(JInt(rp.id))
    ensures Get(j, "price") == Some(JInt(rp.price))
    ensures Get(j, "pizza_id") == Some(JInt(rp.pizzaId))
    ensures Get(j, "restaurant_id") == Some(JInt(rp.restaurantId))
    ensures IdOf(j) == Some(rp.id)
    ensures IsFlatObject(j)
  {
    var members := [("id", JInt(rp.id)), ("price", JInt(rp.price)),
                    ("pizza_id", JInt(rp.pizzaId)), ("restaurant_id", JInt(rp.restaurantId))];
    LookupDistinct(members);
    assert members[0].0 == "id" && members[1].0 == "price";
    assert members[2].0 == "pizza_id" && members[3].0 == "restaurant_id";
    JObj(members)
  }

  // Shape of the stored tables

  /** Each table maps a row's primary key to the row itself. */
  predicate KeyedById(restaurants: map<int, Restaurant>, pizzas: map<int, Pizza>,
                      restaurantPizzas: map<int, RestaurantPizza>)
    ensures KeyedById(restaurants, pizzas, restaurantPizzas) ==>
      forall id :: id in restaurantPizzas ==> IdOf(ToDict(restaurantPizzas[id])) == Some(id)
  {
    && (forall id :: id in restaurants ==> restaurants[id].id == id)
    && (forall id :: id in pizzas ==> pizzas[id].id == id)
    && (forall id :: id in restaurantPizzas ==> restaurantPizzas[id].id == id)
  }

  /** Every stored price passed the validator. */
  predicate PricesInRange(restaurantPizzas: map<int, RestaurantPizza>)
    ensures PricesInRange(restaurantPizzas) <==>
      forall id :: id in restaurantPizzas ==>
        ValidatePrice(restaurantPizzas[id].price) == Ok(restaurantPizzas[id].price)
  {
    forall id :: id in restaurantPizzas ==> MinPrice <= restaurantPizzas[id].price <= MaxPrice
  }

  /** Foreign-key integrity: every join row names a stored pizza and a stored restaurant. */
  predicate ReferencesResolve(restaurants: map<int, Restaurant>, pizzas: map<int, Pizza>,
                              restaurantPizzas: map<int, RestaurantPizza>)
    ensures ReferencesResolve(restaurants, pizzas, restaurantPizzas) ==>
      forall restaurantId, k :: restaurantId !in restaurants ==> k !in RowsOf(restaurantPizzas, restaurantId)
  {
    forall id :: id in restaurantPizzas ==>
      restaurantPizzas[id].pizzaId in pizzas && restaurantPizzas[id].restaurantId in restaurants
  }

  /** What a store keeps between requests. Foreign-key integrity is part of it
      only when foreign-key checks are switched on; SQLite leaves them off
      unless a pragma turns them on, and then a join row may outlive or never
      have had its referenced rows. */
  predicate Consistent(restaurants: map<int, Restaurant>, pizzas: map<int, Pizza>,
                       restaurantPizzas: map<int, RestaurantPizza>, enforcesForeignKeys: bool)
    ensures Consistent(restaurants, pizzas, restaurantPizzas, enforcesForeignKeys) ==>
      forall id :: id in restaurantPizzas ==>
        var rp := restaurantPizzas[id];
        NewRestaurantPizza(id, rp.pizzaId, rp.restaurantId, rp.price) == Ok(rp)
  {
    && KeyedById(restaurants, pizzas, restaurantPizzas)
    && PricesInRange(restaurantPizzas)
    && (enforcesForeignKeys ==> ReferencesResolve(restaurants, pizzas, restaurantPizzas))
  }

  /** The join rows of one restaurant. */
  function RowsOf(restaurantPizzas: map<int, RestaurantPizza>, restaurantId: int): (rows: map<int, RestaurantPizza>)
    ensures forall k :: k in rows <==> k in restaurantPizzas && restaurantPizzas[k].restaurantId == restaurantId
    ensures forall k :: k in rows ==> rows[k] == restaurantPizzas[k]
  {
    map k | k in restaurantPizzas && restaurantPizzas[k].restaurantId == restaurantId :: restaurantPizzas[k]
  }

  /** The join rows left once a restaurant and its associations are deleted. */
  function WithoutRestaurant(restaurantPizzas: map<int, RestaurantPizza>, restaurantId: int): (rows: map<int, RestaurantPizza>)
    ensures forall k :: k in rows <==> k in restaurantPizzas && restaurantPizzas[k].restaurantId != restaurantId
    ensures forall k :: k in rows ==> rows[k] == restaurantPizzas[k]
  {
    map k | k in restaurantPizzas && restaurantPizzas[k].restaurantId != restaurantId :: restaurantPizzas[k]
  }

  /** The join rows of one restaurant as they appear inside its serialized
      form: one flat to_dict per row, in id order. Each names the restaurant
      by id only, so no association re-embeds the restaurant or its pizza. */
  function Associations(restaurantPizzas: map<int, RestaurantPizza>, restaurantId: int): (items: seq<Json>)
    requires forall k :: k in restaurantPizzas ==> restaurantPizzas[k].id == k
    ensures ListsTable(items, RowsOf(restaurantPizzas, restaurantId), ToDict)
    ensures forall i :: 0 <= i < |items| ==>
      IsFlatObject(items[i]) && Get(items[i], "restaurant_id") == Some(JInt(restaurantId))
  {
    var rows := RowsOf(restaurantPizzas, restaurantId);
    var items := Listing(rows, ToDict);
    forall i | 0 <= i < |items|
      ensures IsFlatObject(items[i]) && Get(items[i], "restaurant_id") == Some(JInt(restaurantId))
    {
      var k := IdOf(items[i]).value;
      assert items[i] == ToDict(rows[k]);
    }
    items
  }

  /** A restaurant as GET /restaurants/<id> serializes it: its three columns,
      then its associations. */
  function RestaurantDetail(r: Restaurant, restaurantPizzas: map<int, RestaurantPizza>): (j: Json)
    requires forall k :: k in restaurantPizzas ==> restaurantPizzas[k].id == k
    ensures Keys(j) == ["id", "name", "address", "restaurant_pizzas"]
    ensures Get(j, "id") == Some(JInt(r.id))
    ensures Get(j, "name") == Some(Nullable(r.name))
    ensures Get(j, "address") == Some(Nullable(r.address))
    ensures Get(j, "restaurant_pizzas") == Some(JArr(Associations(restaurantPizzas, r.id)))
  {
    var members := [("id", JInt(r.id)), ("name", Nullable(r.name)), ("address", Nullable(r.address)),
                    ("restaurant_pizzas", JArr(Associations(restaurantPizzas, r.id)))];
    LookupDistinct(members);
    assert members[0].0 == "id" && members[1].0 == "name";
    assert members[2].0 == "address" && members[3].0 == "restaurant_pizzas";
    JObj(members)
  }

  // The store operations, stated on the tables

  /** Removing one restaurant's join rows leaves the serialization of every
      other restaurant as it was. */
  lemma CascadeKeepsOtherDetails(r: Restaurant, restaurantPizzas: map<int, RestaurantPizza>, id: int)
    requires forall k :: k in restaurantPizzas ==> restaurantPizzas[k].id == k
    requires r.id != id
    ensures RestaurantDetail(r, WithoutRestaurant(restaurantPizzas, id)) == RestaurantDetail(r, restaurantPizzas)
  {
    var kept := WithoutRestaurant(restaurantPizzas, id);
    var after, before := RowsOf(kept, r.id), RowsOf(restaurantPizzas, r.id);
    assert after.Keys == before.Keys;
    assert after == before;
    assert Associations(kept, r.id) == Associations(restaurantPizzas, r.id);
  }

  /** Deleting a restaurant together with its join rows keeps the store consistent. */
  lemma DeleteKeepsConsistent(restaurants: map<int, Restaurant>, pizzas: map<int, Pizza>,
                              restaurantPizzas: map<int, RestaurantPizza>, enforcesForeignKeys: bool, id: int)
    requires Consistent(restaurants, pizzas, restaurantPizzas, enforcesForeignKeys)
    ensures Consistent(restaurants - {id}, pizzas, WithoutRestaurant(restaurantPizzas, id), enforcesForeignKeys)
  {
  }

  /** Inserting a row that the validator built keeps the store consistent,
      provided its references resolve wherever the database checks them. */
  lemma InsertKeepsConsistent(restaurants: map<int, Restaurant>, pizzas: map<int, Pizza>,
                              restaurantPizzas: map<int, RestaurantPizza>, enforcesForeignKeys: bool,
                              row: RestaurantPizza)
    requires Consistent(restaurants, pizzas, restaurantPizzas, enforcesForeignKeys)
    requires NewRestaurantPizza(row.id, row.pizzaId, row.restaurantId, row.price) == Ok(row)
    requires enforcesForeignKeys ==> row.pizzaId in pizzas && row.restaurantId in restaurants
    ensures Consistent(restaurants, pizzas, restaurantPizzas[row.id := row], enforcesForeignKeys)
  {
  }
}
